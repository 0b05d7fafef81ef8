/**
  `build_graph`: a depth-first worklist walk from the root package that creates one
  node per package id (lookup-or-create through the index map) and one edge per
  surviving dependency spec.

  The three nested loops of the source are split into one method per loop: the
  outer `while let Some(pkg_id) = pending.pop()` loop (`DrainPending`), the loop over
  the raw dependencies of one package (`ProcessPackage`) and the loop over the
  surviving specs of one raw dependency (`LinkDependency`).  They share the walk's
  state as a `Walk` value.
*/
module GraphBuilder {
  import opened Wrappers
  import opened PackageIds
  import opened CargoModel
  import opened DepGraph

  /** The mutable state of `build_graph`: the petgraph arena, the index map and the `pending` stack. */
  datatype Walk = Walk(nodes: seq<Node>, edges: seq<Edge>, index: map<PackageId, nat>, pending: seq<PackageId>)

  /** The facts every loop of the walk keeps. */
  ghost predicate Inv(resolve: Resolve, packages: PackageSet, env: Env, root: PackageId, s: Walk)
  {
    && IndexMatches(s.nodes, s.index)
    && |s.nodes| > 0 && s.nodes[0].id == root
    && EdgesInRange(s.edges, |s.nodes|)
    && (forall i :: 0 <= i < |s.nodes| ==> s.nodes[i].id in packages && s.nodes[i].metadata == packages[s.nodes[i].id].metadata)
    && (forall id :: id in s.index ==> id in packages && Reachable(resolve, packages, env, root, id))
    && (forall a, b :: 0 <= a < b < |s.pending| ==> s.pending[a] != s.pending[b])
    && (forall id :: id in s.pending ==> id in s.index)
    && (forall i :: 0 <= i < |s.nodes| && s.nodes[i].id in s.pending ==> FromNode(s.edges, i) == [])
  }

  /** Every node that is neither pending nor `skip` has been processed. */
  ghost predicate DoneBut(resolve: Resolve, packages: PackageSet, env: Env, s: Walk, skip: int)
  {
    forall i :: 0 <= i < |s.nodes| && i != skip && s.nodes[i].id !in s.pending ==>
      NodeDone(resolve, packages, env, s.nodes, s.edges, s.index, i)
  }

  /**
    Package ids without a node plus pending ids: every pop lowers it by one, every
    insertion adds a node and a pending id and keeps it.
  */
  ghost function Budget(packages: PackageSet, s: Walk): int
  {
    |packages.Keys| - |s.nodes| + |s.pending|
  }

  /** The nodes hold distinct package ids, so there are at most as many nodes as packages. */
  lemma NodesBounded(resolve: Resolve, packages: PackageSet, env: Env, root: PackageId, s: Walk)
    requires Inv(resolve, packages, env, root, s)
    ensures |s.nodes| <= |packages.Keys|
  {
    NodeCount(s.nodes, s.index);
    assert s.index.Keys <= packages.Keys;
    SubsetCard(s.index.Keys, packages.Keys);
  }

  /** What holds while the package at node `idx` is being processed. */
  ghost predicate Processing(resolve: Resolve, packages: PackageSet, env: Env, root: PackageId, s: Walk, pkgId: PackageId, idx: nat)
  {
    && Inv(resolve, packages, env, root, s)
    && DoneBut(resolve, packages, env, s, idx)
    && pkgId in s.index && s.index[pkgId] == idx && idx < |s.nodes| && pkgId !in s.pending
  }

  /**
    `w` is a later state of the walk than `s`: the index only gains entries, and
    nodes, edges and `pending` only grow at their ends.
  */
  ghost predicate Grows(s: Walk, w: Walk)
  {
    Extends(s.index, w.index) && s.nodes <= w.nodes && s.edges <= w.edges && s.pending <= w.pending
  }

  /**
    Going from `s` to `w` indexes no id outside `targets`, and every id pushed onto
    `pending` was not indexed in `s`: an id is pushed only when it is first inserted.
  */
  ghost predicate AddsOnly(s: Walk, w: Walk, targets: set<PackageId>)
  {
    && (forall id :: id in w.index ==> id in s.index || id in targets)
    && |s.pending| <= |w.pending|
    && (forall k :: |s.pending| <= k < |w.pending| ==> w.pending[k] !in s.index)
  }

  lemma AddsOnlyTransitive(a: Walk, b: Walk, c: Walk, targets: set<PackageId>, more: set<PackageId>)
    requires Grows(a, b) && Grows(b, c) && more <= targets
    requires AddsOnly(a, b, targets) && AddsOnly(b, c, more)
    ensures AddsOnly(a, c, targets)
  {
    forall k | |a.pending| <= k < |c.pending|
      ensures c.pending[k] !in a.index
    {
      if k < |b.pending| {
        assert c.pending[k] == b.pending[k];
      }
    }
  }

  /** The redirected ids of those raw dependencies in `raws` that have a surviving spec in `specs`. */
  ghost function LiveTargets(resolve: Resolve, env: Env, specs: seq<Dependency>, raws: seq<PackageId>): set<PackageId>
  {
    set k | 0 <= k < |raws| && Surviving(specs, raws[k], env) != [] :: Replacement(resolve, raws[k])
  }

  /** A raw dependency with a surviving spec contributes its redirected id to `LiveTargets`. */
  lemma LiveTarget(resolve: Resolve, env: Env, specs: seq<Dependency>, raws: seq<PackageId>, j: nat)
    requires j < |raws| && Surviving(specs, raws[j], env) != []
    ensures Replacement(resolve, raws[j]) in LiveTargets(resolve, env, specs, raws)
  {
  }

  /**
    Linking the raw dependency `raws[j]` keeps the new index entries and pushes of the
    whole loop within `LiveTargets`: without a surviving spec it changes nothing.
  */
  lemma LiveAdvance(resolve: Resolve, env: Env, specs: seq<Dependency>, raws: seq<PackageId>, j: nat,
                    s: Walk, w: Walk, w': Walk)
    requires j < |raws|
    requires Grows(s, w) && AddsOnly(s, w, LiveTargets(resolve, env, specs, raws))
    requires Surviving(specs, raws[j], env) == [] ==> w' == w
    requires Grows(w, w') && AddsOnly(w, w', {Replacement(resolve, raws[j])})
    ensures Grows(s, w') && AddsOnly(s, w', LiveTargets(resolve, env, specs, raws))
  {
    GrowsTransitive(s, w, w');
    if Surviving(specs, raws[j], env) != [] {
      LiveTarget(resolve, env, specs, raws, j);
      AddsOnlyTransitive(s, w, w', LiveTargets(resolve, env, specs, raws), {Replacement(resolve, raws[j])});
    }
  }

  lemma GrowsTransitive(a: Walk, b: Walk, c: Walk)
    requires Grows(a, b) && Grows(b, c)
    ensures Grows(a, c)
  {
  }

  // ------------------------------------------------------- state transitions

  /** Popping the last pending id starts processing it. */
  lemma PopStarts(resolve: Resolve, packages: PackageSet, env: Env, root: PackageId, s: Walk)
    requires Inv(resolve, packages, env, root, s) && DoneBut(resolve, packages, env, s, -1) && s.pending != []
    ensures var pkgId := s.pending[|s.pending| - 1];
            var s' := s.(pending := s.pending[..|s.pending| - 1]);
            && Processing(resolve, packages, env, root, s', pkgId, s.index[pkgId])
            && FromNode(s'.edges, s.index[pkgId]) == []
            && |s'.pending| == |s.pending| - 1
  {
    var pkgId := s.pending[|s.pending| - 1];
    var front := s.pending[..|s.pending| - 1];
    assert s.pending == front + [pkgId];
    var s' := s.(pending := front);
    assert pkgId !in front;
    forall i | 0 <= i < |s'.nodes| && i != s.index[pkgId] && s'.nodes[i].id !in s'.pending
      ensures NodeDone(resolve, packages, env, s'.nodes, s'.edges, s'.index, i)
    {
      assert s.nodes[i].id != pkgId;
    }
  }

  /** The walk after `nodes.entry(dep_id)` was vacant: `dep_id` pushed, a node added and indexed. */
  function Inserted(packages: PackageSet, s: Walk, depId: PackageId): Walk
    requires depId in packages
  {
    Walk(s.nodes + [Node(depId, packages[depId].metadata)], s.edges, s.index[depId := |s.nodes|], s.pending + [depId])
  }

  /** Inserting a new node for a successor of the package being processed keeps the walk's invariants. */
  lemma InsertKeeps(resolve: Resolve, packages: PackageSet, env: Env, root: PackageId, s: Walk,
                    pkgId: PackageId, idx: nat, depId: PackageId)
    requires Processing(resolve, packages, env, root, s, pkgId, idx)
    requires depId !in s.index && depId in packages && Step(resolve, packages, env, pkgId, depId)
    ensures Processing(resolve, packages, env, root, Inserted(packages, s, depId), pkgId, idx)
  {
    InsertKeepsInv(resolve, packages, env, root, s, pkgId, depId);
    InsertKeepsDone(resolve, packages, env, root, s, pkgId, idx, depId);
  }

  lemma InsertKeepsInv(resolve: Resolve, packages: PackageSet, env: Env, root: PackageId, s: Walk,
                       pkgId: PackageId, depId: PackageId)
    requires Inv(resolve, packages, env, root, s) && pkgId in s.index
    requires depId !in s.index && depId in packages && Step(resolve, packages, env, pkgId, depId)
    ensures Inv(resolve, packages, env, root, Inserted(packages, s, depId))
  {
    InsertKeepsNodes(resolve, packages, env, root, s, depId);
    InsertKeepsPending(resolve, packages, env, root, s, depId);
    ReachableStep(resolve, packages, env, root, pkgId, depId);
  }

  lemma InsertKeepsNodes(resolve: Resolve, packages: PackageSet, env: Env, root: PackageId, s: Walk, depId: PackageId)
    requires Inv(resolve, packages, env, root, s)
    requires depId !in s.index && depId in packages
    ensures var s' := Inserted(packages, s, depId);
            && IndexMatches(s'.nodes, s'.index)
            && (forall i :: 0 <= i < |s'.nodes| ==> s'.nodes[i].id in packages && s'.nodes[i].metadata == packages[s'.nodes[i].id].metadata)
  {
    var s' := Inserted(packages, s, depId);
    var n := |s.nodes|;
    forall id | id in s'.index
      ensures s'.index[id] < |s'.nodes| && s'.nodes[s'.index[id]].id == id
    {
      if id != depId {
        assert s'.nodes[s.index[id]] == s.nodes[s.index[id]];
      }
    }
    forall i | 0 <= i < |s'.nodes|
      ensures s'.nodes[i].id in s'.index && s'.index[s'.nodes[i].id] == i
      ensures s'.nodes[i].id in packages && s'.nodes[i].metadata == packages[s'.nodes[i].id].metadata
    {
      if i < n {
        assert s'.nodes[i] == s.nodes[i];
      }
    }
  }

  lemma InsertKeepsPending(resolve: Resolve, packages: PackageSet, env: Env, root: PackageId, s: Walk, depId: PackageId)
    requires Inv(resolve, packages, env, root, s)
    requires depId !in s.index && depId in packages
    ensures var s' := Inserted(packages, s, depId);
            && (forall a, b :: 0 <= a < b < |s'.pending| ==> s'.pending[a] != s'.pending[b])
            && (forall i :: 0 <= i < |s'.nodes| && s'.nodes[i].id in s'.pending ==> FromNode(s'.edges, i) == [])
  {
    var s' := Inserted(packages, s, depId);
    var n := |s.nodes|;
    forall a, b | 0 <= a < b < |s'.pending|
      ensures s'.pending[a] != s'.pending[b]
    {
      if b < |s.pending| {
        assert s'.pending[a] == s.pending[a] && s'.pending[b] == s.pending[b];
      } else {
        assert s'.pending[a] == s.pending[a];
        assert s.pending[a] in s.pending;
      }
    }
    forall i | 0 <= i < |s'.nodes| && s'.nodes[i].id in s'.pending
      ensures FromNode(s'.edges, i) == []
    {
      if i < n {
        assert s'.nodes[i] == s.nodes[i];
        assert s.nodes[i].id != depId;
      } else {
        FromNodeNone(s.edges, n);
      }
    }
  }

  lemma InsertKeepsDone(resolve: Resolve, packages: PackageSet, env: Env, root: PackageId, s: Walk,
                        pkgId: PackageId, idx: nat, depId: PackageId)
    requires Processing(resolve, packages, env, root, s, pkgId, idx)
    requires depId !in s.index && depId in packages
    ensures DoneBut(resolve, packages, env, Inserted(packages, s, depId), idx)
  {
    var s' := Inserted(packages, s, depId);
    forall i | 0 <= i < |s'.nodes| && i != idx && s'.nodes[i].id !in s'.pending
      ensures NodeDone(resolve, packages, env, s'.nodes, s'.edges, s'.index, i)
    {
      assert i < |s.nodes| && s'.nodes[i] == s.nodes[i];
      var id := s.nodes[i].id;
      OutEdgesExtend(resolve, env, i, packages[id].dependencies, DepsNotReplaced(resolve, id), s.index, s'.index);
    }
  }

  /** Adding an edge out of the node being processed keeps the walk's invariants. */
  lemma AddEdgeKeeps(resolve: Resolve, packages: PackageSet, env: Env, root: PackageId, s: Walk,
                     pkgId: PackageId, idx: nat, e: Edge)
    requires Processing(resolve, packages, env, root, s, pkgId, idx)
    requires e.from == idx && e.to < |s.nodes|
    ensures var s' := s.(edges := s.edges + [e]);
            && Processing(resolve, packages, env, root, s', pkgId, idx)
            && FromNode(s'.edges, idx) == FromNode(s.edges, idx) + [e]
  {
    forall i | 0 <= i < |s.nodes|
      ensures FromNode(s.edges + [e], i) == FromNode(s.edges, i) + (if i == idx then [e] else [])
    {
      FromNodeAppend(s.edges, e, i);
    }
  }

  /** Once all raw dependencies of the package at `idx` are linked, that node is processed too. */
  lemma FinishPackage(resolve: Resolve, packages: PackageSet, env: Env, root: PackageId, s: Walk, pkgId: PackageId, idx: nat)
    requires Processing(resolve, packages, env, root, s, pkgId, idx) && pkgId in packages
    requires TargetsIndexed(resolve, env, packages[pkgId].dependencies, DepsNotReplaced(resolve, pkgId), s.index)
    requires FromNode(s.edges, idx) == OutEdges(resolve, env, idx, packages[pkgId].dependencies, DepsNotReplaced(resolve, pkgId), s.index)
    ensures Inv(resolve, packages, env, root, s) && DoneBut(resolve, packages, env, s, -1)
  {
    assert NodeDone(resolve, packages, env, s.nodes, s.edges, s.index, idx);
  }

  /** The node index of `id`, or 0 for an id not yet indexed. */
  function IndexOr(index: map<PackageId, nat>, id: PackageId): nat
  {
    if id in index then index[id] else 0
  }

  lemma SpecEdgesNone(from: nat, to: nat, to': nat, specs: seq<Dependency>)
    requires specs == []
    ensures SpecEdges(from, to, specs) == SpecEdges(from, to', specs) == []
  {
  }

  /** One more surviving spec, one more edge. */
  lemma LinkStep(prefix: seq<Edge>, out: seq<Edge>, from: nat, to: nat, it: seq<Dependency>, k: nat)
    requires k < |it| && out == prefix + SpecEdges(from, to, it[..k])
    ensures out + [Edge(from, to, it[k].kind)] == prefix + SpecEdges(from, to, it[..k + 1])
  {
    SpecEdgesSnoc(from, to, it, k);
  }

  /** One pass of the loop `for dep in it`: the edge to the looked-up or created node keeps the loop's invariants. */
  lemma LinkAdvance(resolve: Resolve, packages: PackageSet, env: Env, root: PackageId, s: Walk, w: Walk, w': Walk,
                    pkgId: PackageId, idx: nat, specs: seq<Dependency>, raws: seq<PackageId>, j: nat,
                    it: seq<Dependency>, depId: PackageId, depIdx: nat, prefix: seq<Edge>, k: nat)
    requires k < |it| && j <= |raws|
    requires Processing(resolve, packages, env, root, w', pkgId, idx)
    requires depId in w'.index && w'.index[depId] == depIdx && depIdx < |w'.nodes|
    requires Grows(w, w') && w'.edges == w.edges && (depId in w.index ==> w' == w)
    requires TargetsIndexed(resolve, env, specs, raws[..j], w.index)
    requires prefix == OutEdges(resolve, env, idx, specs, raws[..j], w.index)
    requires k > 0 ==> depId in w.index
    requires FromNode(w.edges, idx) == prefix + SpecEdges(idx, IndexOr(w.index, depId), it[..k])
    requires Grows(s, w) && |w'.nodes| - |w'.pending| == |w.nodes| - |w.pending|
    requires AddsOnly(s, w, {depId}) && AddsOnly(w, w', {depId})
    ensures var w2 := w'.(edges := w'.edges + [Edge(idx, depIdx, it[k].kind)]);
            && Processing(resolve, packages, env, root, w2, pkgId, idx)
            && TargetsIndexed(resolve, env, specs, raws[..j], w2.index)
            && prefix == OutEdges(resolve, env, idx, specs, raws[..j], w2.index)
            && depId in w2.index
            && FromNode(w2.edges, idx) == prefix + SpecEdges(idx, IndexOr(w2.index, depId), it[..k + 1])
            && Grows(s, w2) && AddsOnly(s, w2, {depId})
            && |w2.nodes| - |w2.pending| == |w.nodes| - |w.pending|
  {
    var e := Edge(idx, depIdx, it[k].kind);
    OutEdgesExtend(resolve, env, idx, specs, raws[..j], w.index, w'.index);
    SpecEdgesNone(idx, IndexOr(w.index, depId), depIdx, it[..0]);
    AddEdgeKeeps(resolve, packages, env, root, w', pkgId, idx, e);
    LinkStep(prefix, FromNode(w'.edges, idx), idx, depIdx, it, k);
    GrowsTransitive(s, w, w');
    AddsOnlyTransitive(s, w, w', {depId}, {depId});
    GrowsTransitive(s, w', w'.(edges := w'.edges + [e]));
  }

  /** After all surviving specs of `raws[j]`, the edges so far are `OutEdges` over `raws[..j + 1]`. */
  lemma LinkDone(resolve: Resolve, env: Env, from: nat, specs: seq<Dependency>, raws: seq<PackageId>, j: nat, index: map<PackageId, nat>,
                 prefix: seq<Edge>, out: seq<Edge>, k: nat)
    requires j < |raws| && k == |Surviving(specs, raws[j], env)|
    requires TargetsIndexed(resolve, env, specs, raws[..j], index)
    requires prefix == OutEdges(resolve, env, from, specs, raws[..j], index)
    requires k > 0 ==> Replacement(resolve, raws[j]) in index
    requires out == prefix + SpecEdges(from, IndexOr(index, Replacement(resolve, raws[j])), Surviving(specs, raws[j], env)[..k])
    ensures TargetsIndexed(resolve, env, specs, raws[..j + 1], index)
    ensures out == OutEdges(resolve, env, from, specs, raws[..j + 1], index)
  {
    TakeAll(Surviving(specs, raws[j], env));
    OutEdgesSnoc(resolve, env, from, specs, raws[..j], raws[j], index);
    TakeSnoc(raws, j);
  }

  // ------------------------------------------------------------- the walk

  /**
    `match graph.nodes.entry(dep_id)`: the index of an existing node, or else `dep_id`
    pushed onto `pending`, its package looked up, and a new node added and indexed.
  */
  method NodeFor(resolve: Resolve, packages: PackageSet, env: Env, root: PackageId, s: Walk,
                 pkgId: PackageId, idx: nat, depId: PackageId)
    returns (r: Result<(Walk, nat), Error>)
    requires Processing(resolve, packages, env, root, s, pkgId, idx) && Step(resolve, packages, env, pkgId, depId)
    ensures depId in s.index ==> r == Ok((s, s.index[depId]))
    ensures depId !in s.index && depId in packages ==> r == Ok((Inserted(packages, s, depId), |s.nodes|))
    ensures r.Err? <==> depId !in s.index && depId !in packages
    ensures r.Err? ==> r.error == MissingPackage(depId) && Reachable(resolve, packages, env, root, depId)
    ensures r.Ok? ==> var (w, t) := r.value;
              && Processing(resolve, packages, env, root, w, pkgId, idx)
              && depId in w.index && w.index[depId] == t && t < |w.nodes|
              && Grows(s, w) && AddsOnly(s, w, {depId}) && w.edges == s.edges
              && |w.nodes| - |w.pending| == |s.nodes| - |s.pending|
  {
    if depId in s.index {
      return Ok((s, s.index[depId]));
    }
    ReachableStep(resolve, packages, env, root, pkgId, depId);
    var pending := s.pending + [depId];
    if depId !in packages {
      return Err(MissingPackage(depId));
    }
    InsertKeeps(resolve, packages, env, root, s, pkgId, idx, depId);
    var w := Walk(s.nodes + [Node(depId, packages[depId].metadata)], s.edges, s.index[depId := |s.nodes|], pending);
    assert w == Inserted(packages, s, depId);
    return Ok((w, |s.nodes|));
  }

  /**
    The loop `for dep in it` for the raw dependency `raws[j]` of the package at node
    `idx`: every surviving spec adds one edge to the node of the redirected id, which
    the first surviving spec looks up or creates.
  */
  method LinkDependency(resolve: Resolve, packages: PackageSet, env: Env, root: PackageId, s: Walk,
                        pkgId: PackageId, idx: nat, raws: seq<PackageId>, j: nat)
    returns (r: Result<Walk, Error>)
    requires Processing(resolve, packages, env, root, s, pkgId, idx)
    requires pkgId in packages && raws == DepsNotReplaced(resolve, pkgId) && j < |raws|
    requires TargetsIndexed(resolve, env, packages[pkgId].dependencies, raws[..j], s.index)
    requires FromNode(s.edges, idx) == OutEdges(resolve, env, idx, packages[pkgId].dependencies, raws[..j], s.index)
    ensures Surviving(packages[pkgId].dependencies, raws[j], env) == [] ==> r == Ok(s)
    ensures r.Err? ==> r.error == MissingPackage(Replacement(resolve, raws[j]))
    ensures r.Err? ==> r.error.id !in packages && Reachable(resolve, packages, env, root, r.error.id)
    ensures r.Ok? ==> var s' := r.value;
              && Processing(resolve, packages, env, root, s', pkgId, idx)
              && TargetsIndexed(resolve, env, packages[pkgId].dependencies, raws[..j + 1], s'.index)
              && FromNode(s'.edges, idx) == OutEdges(resolve, env, idx, packages[pkgId].dependencies, raws[..j + 1], s'.index)
              && Grows(s, s') && AddsOnly(s, s', {Replacement(resolve, raws[j])})
              && |s'.nodes| - |s'.pending| == |s.nodes| - |s.pending|
  {
    var specs := packages[pkgId].dependencies;
    var raw := raws[j];
    var it := Surviving(specs, raw, env);
    var depId := Replacement(resolve, raw);
    ghost var prefix := FromNode(s.edges, idx);
    if it != [] {
      assert Step(resolve, packages, env, pkgId, depId) by {
        assert raws[j] == raw;
      }
    }
    var w := s;
    var k := 0;
    while k < |it|
      invariant 0 <= k <= |it|
      invariant Processing(resolve, packages, env, root, w, pkgId, idx)
      invariant TargetsIndexed(resolve, env, specs, raws[..j], w.index)
      invariant prefix == OutEdges(resolve, env, idx, specs, raws[..j], w.index)
      invariant k == 0 ==> w == s
      invariant k > 0 ==> depId in w.index
      invariant FromNode(w.edges, idx) == prefix + SpecEdges(idx, IndexOr(w.index, depId), it[..k])
      invariant Grows(s, w) && AddsOnly(s, w, {depId})
      invariant |w.nodes| - |w.pending| == |s.nodes| - |s.pending|
    {
      var dep := it[k];
      var entry := NodeFor(resolve, packages, env, root, w, pkgId, idx, depId);
      if entry.Err? {
        return Err(entry.error);
      }
      var (w', depIdx) := entry.value;
      var e := Edge(idx, depIdx, dep.kind);
      LinkAdvance(resolve, packages, env, root, s, w, w', pkgId, idx, specs, raws, j, it, depId, depIdx, prefix, k);
      w := w'.(edges := w'.edges + [e]);
      k := k + 1;
    }
    LinkDone(resolve, env, idx, specs, raws, j, w.index, prefix, FromNode(w.edges, idx), k);
    return Ok(w);
  }

  /** The loop `for raw_dep_id in resolve.deps_not_replaced(pkg_id)` for the package at node `idx`. */
  method ProcessPackage(resolve: Resolve, packages: PackageSet, env: Env, root: PackageId, s: Walk,
                        pkgId: PackageId, idx: nat)
    returns (r: Result<Walk, Error>)
    requires Processing(resolve, packages, env, root, s, pkgId, idx) && FromNode(s.edges, idx) == []
    ensures r.Err? ==> r.error.id !in packages && Reachable(resolve, packages, env, root, r.error.id)
    ensures r.Err? ==> r.error.id in LiveTargets(resolve, env, packages[pkgId].dependencies, DepsNotReplaced(resolve, pkgId))
    ensures r.Ok? ==> && Inv(resolve, packages, env, root, r.value)
                      && DoneBut(resolve, packages, env, r.value, -1)
                      && Processing(resolve, packages, env, root, r.value, pkgId, idx)
                      && TargetsIndexed(resolve, env, packages[pkgId].dependencies, DepsNotReplaced(resolve, pkgId), r.value.index)
                      && FromNode(r.value.edges, idx) == OutEdges(resolve, env, idx, packages[pkgId].dependencies, DepsNotReplaced(resolve, pkgId), r.value.index)
                      && Grows(s, r.value) && AddsOnly(s, r.value, LiveTargets(resolve, env, packages[pkgId].dependencies, DepsNotReplaced(resolve, pkgId)))
                      && |r.value.nodes| - |r.value.pending| == |s.nodes| - |s.pending|
  {
    var raws := DepsNotReplaced(resolve, pkgId);
    ghost var specs := packages[pkgId].dependencies;
    var w := s;
    assert raws[..0] == [];
    var j := 0;
    while j < |raws|
      invariant 0 <= j <= |raws|
      invariant Processing(resolve, packages, env, root, w, pkgId, idx)
      invariant TargetsIndexed(resolve, env, packages[pkgId].dependencies, raws[..j], w.index)
      invariant FromNode(w.edges, idx) == OutEdges(resolve, env, idx, packages[pkgId].dependencies, raws[..j], w.index)
      invariant Grows(s, w) && AddsOnly(s, w, LiveTargets(resolve, env, specs, raws))
      invariant |w.nodes| - |w.pending| == |s.nodes| - |s.pending|
    {
      var res := LinkDependency(resolve, packages, env, root, w, pkgId, idx, raws, j);
      if res.Err? {
        LiveTarget(resolve, env, specs, raws, j);
        return Err(res.error);
      }
      LiveAdvance(resolve, env, specs, raws, j, s, w, res.value);
      w := res.value;
      j := j + 1;
    }
    TakeAll(raws);
    FinishPackage(resolve, packages, env, root, w, pkgId, idx);
    return Ok(w);
  }

  /** The loop `while let Some(pkg_id) = pending.pop()`: process pending packages until none is left. */
  method DrainPending(resolve: Resolve, packages: PackageSet, env: Env, root: PackageId, s: Walk)
    returns (r: Result<Walk, Error>)
    requires Inv(resolve, packages, env, root, s) && DoneBut(resolve, packages, env, s, -1)
    ensures r.Err? ==> r.error.id !in packages && Reachable(resolve, packages, env, root, r.error.id)
    ensures r.Ok? ==> && Inv(resolve, packages, env, root, r.value)
                      && DoneBut(resolve, packages, env, r.value, -1)
                      && r.value.pending == []
  {
    var w := s;
    NodesBounded(resolve, packages, env, root, w);
    while w.pending != []
      invariant Inv(resolve, packages, env, root, w)
      invariant DoneBut(resolve, packages, env, w, -1)
      decreases Budget(packages, w)
    {
      NodesBounded(resolve, packages, env, root, w);
      var pkgId := w.pending[|w.pending| - 1];
      PopStarts(resolve, packages, env, root, w);
      w := w.(pending := w.pending[..|w.pending| - 1]);
      var idx := w.index[pkgId];
      var res := ProcessPackage(resolve, packages, env, root, w, pkgId, idx);
      if res.Err? {
        return Err(res.error);
      }
      w := res.value;
      NodesBounded(resolve, packages, env, root, w);
    }
    return Ok(w);
  }

  /** A drained walk is a dependency graph of everything reachable from the root. */
  lemma DrainedIsGraph(resolve: Resolve, packages: PackageSet, env: Env, root: PackageId, w: Walk)
    requires Inv(resolve, packages, env, root, w) && DoneBut(resolve, packages, env, w, -1) && w.pending == []
    ensures IsDependencyGraph(resolve, packages, env, root, Graph(PetGraph(w.nodes, w.edges), w.index))
    ensures forall id :: Reachable(resolve, packages, env, root, id) ==> id in packages
  {
    assert Closed(resolve, packages, env, w.index) by {
      forall id | id in w.index
        ensures id in packages && TargetsIndexed(resolve, env, packages[id].dependencies, DepsNotReplaced(resolve, id), w.index)
      {
        assert NodeDone(resolve, packages, env, w.nodes, w.edges, w.index, w.index[id]);
      }
    }
    forall id | Reachable(resolve, packages, env, root, id)
      ensures id in w.index
    {
      ReachableInClosed(resolve, packages, env, w.index, root, id);
    }
  }

  /**
    `build_graph`: the dependency graph of everything reachable from `root`.  On
    success it is a dependency graph in the sense of `IsDependencyGraph`: the root
    is node 0, there is exactly one node per reachable id, and each node's outgoing
    edges are exactly the `OutEdges` of its package.  It fails exactly when some
    reachable id is missing from the package set, and then names such an id.
  */
  method BuildGraph(resolve: Resolve, packages: PackageSet, root: PackageId,
                    target: Option<string>, cfgs: Option<seq<Cfg>>, oracle: Oracle)
    returns (r: Result<Graph, Error>)
    ensures root !in packages ==> r == Err(MissingPackage(root))
    ensures r.Err? ==> r.error.id !in packages && Reachable(resolve, packages, Env(oracle, target, cfgs), root, r.error.id)
    ensures r.Ok? ==> IsDependencyGraph(resolve, packages, Env(oracle, target, cfgs), root, r.value)
    ensures r.Ok? <==> forall id :: Reachable(resolve, packages, Env(oracle, target, cfgs), root, id) ==> id in packages
  {
    var env := Env(oracle, target, cfgs);
    ReachableRoot(resolve, packages, env, root);
    if root !in packages {
      return Err(MissingPackage(root));
    }
    var w := Walk([Node(root, packages[root].metadata)], [], map[root := 0], [root]);
    var res := DrainPending(resolve, packages, env, root, w);
    if res.Err? {
      return Err(res.error);
    }
    DrainedIsGraph(resolve, packages, env, root, res.value);
    r := Ok(Graph(PetGraph(res.value.nodes, res.value.edges), res.value.index));
  }
}

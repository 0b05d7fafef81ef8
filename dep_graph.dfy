/**
  The dependency graph `build_graph` produces, and the specification it is proved
  against.

  The petgraph graph is an arena: `nodes` in insertion order (a `NodeIndex` is a
  position) and `edges` in insertion order, each labelled with a dependency kind.
  `Graph.nodes` is the `HashMap<&PackageId, NodeIndex>` index.
*/
module DepGraph {
  import opened PackageIds
  import opened CargoModel

  datatype Node = Node(id: PackageId, metadata: Metadata)

  datatype Edge = Edge(from: nat, to: nat, kind: Kind)

  datatype PetGraph = PetGraph(nodes: seq<Node>, edges: seq<Edge>)

  datatype Graph = Graph(graph: PetGraph, nodes: map<PackageId, nat>)

  /** The error of `packages.get_one` on an id the package set does not hold. */
  datatype Error = MissingPackage(id: PackageId)

  /** The index map and the node arena agree: each id has exactly one node, at its index. */
  predicate IndexMatches(nodes: seq<Node>, index: map<PackageId, nat>)
  {
    && (forall id :: id in index ==> index[id] < |nodes| && nodes[index[id]].id == id)
    && (forall i :: 0 <= i < |nodes| ==> nodes[i].id in index && index[nodes[i].id] == i)
  }

  predicate EdgesInRange(edges: seq<Edge>, n: nat)
  {
    forall e :: e in edges ==> e.from < n && e.to < n
  }

  predicate WellFormed(g: Graph)
  {
    IndexMatches(g.graph.nodes, g.nodes) && EdgesInRange(g.graph.edges, |g.graph.nodes|)
  }

  /** The edges leaving node `i`, in insertion order. */
  function FromNode(edges: seq<Edge>, i: nat): seq<Edge>
    decreases |edges|
  {
    if edges == [] then []
    else FromNode(edges[..|edges| - 1], i) + (if edges[|edges| - 1].from == i then [edges[|edges| - 1]] else [])
  }

  /** One edge from `from` to `to` per spec, labelled with the spec's kind. */
  function SpecEdges(from: nat, to: nat, specs: seq<Dependency>): seq<Edge>
  {
    seq(|specs|, k requires 0 <= k < |specs| => Edge(from, to, specs[k].kind))
  }

  /** Every raw dependency with a surviving spec has its redirected id in the index. */
  predicate TargetsIndexed(resolve: Resolve, env: Env, specs: seq<Dependency>, raws: seq<PackageId>, index: map<PackageId, nat>)
  {
    forall k :: 0 <= k < |raws| && Surviving(specs, raws[k], env) != [] ==> Replacement(resolve, raws[k]) in index
  }

  /**
    The edges processing one package adds, in order: for each raw dependency, one
    edge per surviving spec, all to the node of the redirected id.
  */
  function OutEdges(resolve: Resolve, env: Env, from: nat, specs: seq<Dependency>, raws: seq<PackageId>, index: map<PackageId, nat>): seq<Edge>
    requires TargetsIndexed(resolve, env, specs, raws, index)
    decreases |raws|
  {
    if raws == [] then []
    else
      var front := raws[..|raws| - 1];
      var raw := raws[|raws| - 1];
      var it := Surviving(specs, raw, env);
      assert forall k :: 0 <= k < |front| ==> front[k] == raws[k];
      OutEdges(resolve, env, from, specs, front, index)
        + (if it == [] then [] else SpecEdges(from, index[Replacement(resolve, raw)], it))
  }

  /** Number of edges `OutEdges` adds: the surviving specs summed over the raw dependencies. */
  function SurvivorCount(env: Env, specs: seq<Dependency>, raws: seq<PackageId>): nat
    decreases |raws|
  {
    if raws == [] then 0
    else SurvivorCount(env, specs, raws[..|raws| - 1]) + |Surviving(specs, raws[|raws| - 1], env)|
  }

  /** Node `i` has been processed: all its targets are nodes and its out-edges are exactly `OutEdges`. */
  predicate NodeDone(resolve: Resolve, packages: PackageSet, env: Env, nodes: seq<Node>, edges: seq<Edge>, index: map<PackageId, nat>, i: nat)
    requires i < |nodes|
  {
    var id := nodes[i].id;
    && id in packages
    && TargetsIndexed(resolve, env, packages[id].dependencies, DepsNotReplaced(resolve, id), index)
    && FromNode(edges, i) == OutEdges(resolve, env, i, packages[id].dependencies, DepsNotReplaced(resolve, id), index)
  }

  /** `b` is a graph successor of `a`: some raw dependency of `a` with a surviving spec is redirected to `b`. */
  ghost predicate Step(resolve: Resolve, packages: PackageSet, env: Env, a: PackageId, b: PackageId)
  {
    && a in packages
    && exists k :: 0 <= k < |DepsNotReplaced(resolve, a)|
         && Replacement(resolve, DepsNotReplaced(resolve, a)[k]) == b
         && Surviving(packages[a].dependencies, DepsNotReplaced(resolve, a)[k], env) != []
  }

  ghost predicate IsPath(resolve: Resolve, packages: PackageSet, env: Env, p: seq<PackageId>)
  {
    |p| > 0 && forall i :: 0 <= i < |p| - 1 ==> Step(resolve, packages, env, p[i], p[i + 1])
  }

  ghost predicate Reachable(resolve: Resolve, packages: PackageSet, env: Env, root: PackageId, id: PackageId)
  {
    exists p :: IsPath(resolve, packages, env, p) && p[0] == root && p[|p| - 1] == id
  }

  /** Every id in the index is a package whose surviving targets are again in the index. */
  predicate Closed(resolve: Resolve, packages: PackageSet, env: Env, index: map<PackageId, nat>)
  {
    forall id :: id in index ==>
      id in packages && TargetsIndexed(resolve, env, packages[id].dependencies, DepsNotReplaced(resolve, id), index)
  }

  /**
    What `build_graph` promises of its result: the index and the arena agree, every
    edge joins two nodes, the root is node 0, the nodes are exactly the ids reachable
    from the root, each node carries its package's metadata, and each node's outgoing
    edges are exactly `OutEdges` of its package.
  */
  ghost predicate IsDependencyGraph(resolve: Resolve, packages: PackageSet, env: Env, root: PackageId, g: Graph)
  {
    && WellFormed(g)
    && |g.graph.nodes| > 0 && g.graph.nodes[0].id == root
    && (forall id :: id in g.nodes <==> Reachable(resolve, packages, env, root, id))
    && (forall i :: 0 <= i < |g.graph.nodes| ==>
          g.graph.nodes[i].id in packages && g.graph.nodes[i].metadata == packages[g.graph.nodes[i].id].metadata)
    && (forall i :: 0 <= i < |g.graph.nodes| ==> NodeDone(resolve, packages, env, g.graph.nodes, g.graph.edges, g.nodes, i))
  }

  /** `b` keeps every entry of `a`. */
  predicate Extends(a: map<PackageId, nat>, b: map<PackageId, nat>)
  {
    forall id :: id in a ==> id in b && b[id] == a[id]
  }

  // ---------------------------------------------------------------- lemmas

  /** The ids of the first `n` nodes. */
  function NodeIds(nodes: seq<Node>, n: nat): set<PackageId>
    requires n <= |nodes|
  {
    if n == 0 then {} else NodeIds(nodes, n - 1) + {nodes[n - 1].id}
  }

  lemma {:induction false} NodeIdsCount(nodes: seq<Node>, n: nat)
    requires n <= |nodes|
    requires forall a, b :: 0 <= a < b < |nodes| ==> nodes[a].id != nodes[b].id
    ensures |NodeIds(nodes, n)| == n
  {
    if n > 0 {
      NodeIdsCount(nodes, n - 1);
      NodeIdsMissing(nodes, n - 1, nodes[n - 1].id);
    }
  }

  lemma {:induction false} NodeIdsMissing(nodes: seq<Node>, n: nat, x: PackageId)
    requires n <= |nodes| && forall i :: 0 <= i < n ==> nodes[i].id != x
    ensures x !in NodeIds(nodes, n)
  {
    if n > 0 {
      NodeIdsMissing(nodes, n - 1, x);
    }
  }

  lemma {:induction false} NodeIdsHas(nodes: seq<Node>, n: nat, i: nat)
    requires i < n <= |nodes|
    ensures nodes[i].id in NodeIds(nodes, n)
  {
    if i < n - 1 {
      NodeIdsHas(nodes, n - 1, i);
    }
  }

  lemma {:induction false} NodeIdsWithin(nodes: seq<Node>, n: nat, ids: set<PackageId>)
    requires n <= |nodes| && forall i :: 0 <= i < |nodes| ==> nodes[i].id in ids
    ensures NodeIds(nodes, n) <= ids
  {
    if n > 0 {
      NodeIdsWithin(nodes, n - 1, ids);
    }
  }

  lemma {:induction false} SubsetCard(a: set<PackageId>, b: set<PackageId>)
    requires a <= b
    ensures |a| <= |b|
    decreases |b|
  {
    if a != {} {
      var x :| x in a;
      SubsetCard(a - {x}, b - {x});
    }
  }

  /**
    Each package id has at most one node: the node ids are distinct, and there are
    exactly as many nodes as indexed ids.
  */
  lemma NodeCount(nodes: seq<Node>, index: map<PackageId, nat>)
    requires IndexMatches(nodes, index)
    ensures forall a, b :: 0 <= a < b < |nodes| ==> nodes[a].id != nodes[b].id
    ensures |index.Keys| == |nodes|
  {
    forall a, b | 0 <= a < b < |nodes|
      ensures nodes[a].id != nodes[b].id
    {
      assert index[nodes[a].id] == a;
    }
    NodeIdsCount(nodes, |nodes|);
    NodeIdsWithin(nodes, |nodes|, index.Keys);
    forall id | id in index
      ensures id in NodeIds(nodes, |nodes|)
    {
      NodeIdsHas(nodes, |nodes|, index[id]);
    }
    assert index.Keys == NodeIds(nodes, |nodes|);
  }

  lemma TakeAll<T>(s: seq<T>)
    ensures s[..|s|] == s
  {
  }

  lemma TakeSnoc<T>(s: seq<T>, j: nat)
    requires j < |s|
    ensures s[..j + 1] == s[..j] + [s[j]]
  {
  }

  lemma FromNodeAppend(edges: seq<Edge>, e: Edge, i: nat)
    ensures FromNode(edges + [e], i) == FromNode(edges, i) + (if e.from == i then [e] else [])
  {
    assert (edges + [e])[..|edges|] == edges;
  }

  /** `FromNode` keeps exactly the edges leaving `i`. */
  lemma {:induction false} FromNodeMembers(edges: seq<Edge>, i: nat)
    ensures |FromNode(edges, i)| <= |edges|
    ensures forall e :: e in FromNode(edges, i) <==> e in edges && e.from == i
    decreases |edges|
  {
    if edges != [] {
      var front := edges[..|edges| - 1];
      assert edges == front + [edges[|edges| - 1]];
      FromNodeMembers(front, i);
    }
  }

  lemma FromNodeNone(edges: seq<Edge>, i: nat)
    requires forall e :: e in edges ==> e.from != i
    ensures FromNode(edges, i) == []
  {
    FromNodeMembers(edges, i);
  }

  lemma SpecEdgesSnoc(from: nat, to: nat, specs: seq<Dependency>, k: nat)
    requires k < |specs|
    ensures SpecEdges(from, to, specs[..k + 1]) == SpecEdges(from, to, specs[..k]) + [Edge(from, to, specs[k].kind)]
  {
  }

  /** Growing the index without changing existing entries leaves `OutEdges` unchanged. */
  lemma {:induction false} OutEdgesExtend(resolve: Resolve, env: Env, from: nat, specs: seq<Dependency>, raws: seq<PackageId>,
                                          index: map<PackageId, nat>, index': map<PackageId, nat>)
    requires TargetsIndexed(resolve, env, specs, raws, index)
    requires Extends(index, index')
    ensures TargetsIndexed(resolve, env, specs, raws, index')
    ensures OutEdges(resolve, env, from, specs, raws, index') == OutEdges(resolve, env, from, specs, raws, index)
    decreases |raws|
  {
    if raws != [] {
      var front := raws[..|raws| - 1];
      assert forall k :: 0 <= k < |front| ==> front[k] == raws[k];
      OutEdgesExtend(resolve, env, from, specs, front, index, index');
    }
  }

  /** `OutEdges` over one more raw dependency appends that dependency's edges. */
  lemma OutEdgesSnoc(resolve: Resolve, env: Env, from: nat, specs: seq<Dependency>, raws: seq<PackageId>, raw: PackageId,
                     index: map<PackageId, nat>)
    requires TargetsIndexed(resolve, env, specs, raws, index)
    requires Surviving(specs, raw, env) != [] ==> Replacement(resolve, raw) in index
    ensures TargetsIndexed(resolve, env, specs, raws + [raw], index)
    ensures OutEdges(resolve, env, from, specs, raws + [raw], index)
         == OutEdges(resolve, env, from, specs, raws, index)
            + (if Surviving(specs, raw, env) == [] then [] else SpecEdges(from, index[Replacement(resolve, raw)], Surviving(specs, raw, env)))
  {
    assert (raws + [raw])[..|raws|] == raws;
  }

  /** One edge per surviving spec: no coalescing, and no edge at all without a surviving spec. */
  lemma {:induction false} OutEdgesLength(resolve: Resolve, env: Env, from: nat, specs: seq<Dependency>, raws: seq<PackageId>,
                                          index: map<PackageId, nat>)
    requires TargetsIndexed(resolve, env, specs, raws, index)
    ensures |OutEdges(resolve, env, from, specs, raws, index)| == SurvivorCount(env, specs, raws)
    decreases |raws|
  {
    if raws != [] {
      var front := raws[..|raws| - 1];
      OutEdgesLength(resolve, env, from, specs, front, index);
    }
  }

  /** No edge at all exactly when no raw dependency has a surviving spec. */
  lemma {:induction false} SurvivorCountZero(env: Env, specs: seq<Dependency>, raws: seq<PackageId>)
    ensures SurvivorCount(env, specs, raws) == 0 <==> forall k :: 0 <= k < |raws| ==> Surviving(specs, raws[k], env) == []
    decreases |raws|
  {
    if raws != [] {
      var front := raws[..|raws| - 1];
      assert forall k :: 0 <= k < |front| ==> front[k] == raws[k];
      SurvivorCountZero(env, specs, front);
    }
  }

  /**
    Every edge of `OutEdges` leaves `from`, goes to the node of the redirected id of
    some raw dependency, and carries the kind of one of that dependency's surviving specs.
  */
  lemma {:induction false} OutEdgesSound(resolve: Resolve, env: Env, from: nat, specs: seq<Dependency>, raws: seq<PackageId>,
                                         index: map<PackageId, nat>, e: Edge)
    requires TargetsIndexed(resolve, env, specs, raws, index)
    requires e in OutEdges(resolve, env, from, specs, raws, index)
    ensures e.from == from
    ensures exists k, d :: 0 <= k < |raws| && d in Surviving(specs, raws[k], env)
              && Replacement(resolve, raws[k]) in index
              && e.to == index[Replacement(resolve, raws[k])] && e.kind == d.kind
    decreases |raws|
  {
    var front := raws[..|raws| - 1];
    var raw := raws[|raws| - 1];
    var it := Surviving(specs, raw, env);
    assert forall k :: 0 <= k < |front| ==> front[k] == raws[k];
    if e in OutEdges(resolve, env, from, specs, front, index) {
      OutEdgesSound(resolve, env, from, specs, front, index, e);
      var k, d :| 0 <= k < |front| && d in Surviving(specs, front[k], env)
                  && Replacement(resolve, front[k]) in index
                  && e.to == index[Replacement(resolve, front[k])] && e.kind == d.kind;
      assert raws[k] == front[k];
    } else {
      var es := SpecEdges(from, index[Replacement(resolve, raw)], it);
      assert e in es;
      var j :| 0 <= j < |es| && es[j] == e;
      assert it[j] in it;
      assert raws[|raws| - 1] == raw;
    }
  }

  /** Conversely, every surviving spec of every raw dependency yields an edge. */
  lemma {:induction false} OutEdgesComplete(resolve: Resolve, env: Env, from: nat, specs: seq<Dependency>, raws: seq<PackageId>,
                                            index: map<PackageId, nat>, k: nat, d: Dependency)
    requires TargetsIndexed(resolve, env, specs, raws, index)
    requires k < |raws| && d in Surviving(specs, raws[k], env)
    ensures Replacement(resolve, raws[k]) in index
    ensures Edge(from, index[Replacement(resolve, raws[k])], d.kind) in OutEdges(resolve, env, from, specs, raws, index)
    decreases |raws|
  {
    var front := raws[..|raws| - 1];
    var raw := raws[|raws| - 1];
    var it := Surviving(specs, raw, env);
    assert forall j :: 0 <= j < |front| ==> front[j] == raws[j];
    if k < |front| {
      OutEdgesComplete(resolve, env, from, specs, front, index, k, d);
    } else {
      var es := SpecEdges(from, index[Replacement(resolve, raw)], it);
      var j :| 0 <= j < |it| && it[j] == d;
      assert es[j] == Edge(from, index[Replacement(resolve, raw)], d.kind);
    }
  }

  lemma PathExtend(resolve: Resolve, packages: PackageSet, env: Env, p: seq<PackageId>, b: PackageId)
    requires IsPath(resolve, packages, env, p)
    requires Step(resolve, packages, env, p[|p| - 1], b)
    ensures IsPath(resolve, packages, env, p + [b])
  {
    var q := p + [b];
    forall i | 0 <= i < |q| - 1
      ensures Step(resolve, packages, env, q[i], q[i + 1])
    {
      if i < |p| - 1 {
        assert q[i] == p[i] && q[i + 1] == p[i + 1];
      }
    }
  }

  /** A successor of a reachable id is reachable. */
  lemma ReachableStep(resolve: Resolve, packages: PackageSet, env: Env, root: PackageId, a: PackageId, b: PackageId)
    requires Reachable(resolve, packages, env, root, a) && Step(resolve, packages, env, a, b)
    ensures Reachable(resolve, packages, env, root, b)
  {
    var p :| IsPath(resolve, packages, env, p) && p[0] == root && p[|p| - 1] == a;
    PathExtend(resolve, packages, env, p, b);
    assert (p + [b])[0] == root;
  }

  lemma ReachableRoot(resolve: Resolve, packages: PackageSet, env: Env, root: PackageId)
    ensures Reachable(resolve, packages, env, root, root)
  {
    assert IsPath(resolve, packages, env, [root]);
  }

  /** A successor of an indexed id in a closed index is indexed. */
  lemma StepStaysClosed(resolve: Resolve, packages: PackageSet, env: Env, index: map<PackageId, nat>, a: PackageId, b: PackageId)
    requires Closed(resolve, packages, env, index)
    requires a in index && Step(resolve, packages, env, a, b)
    ensures b in index
  {
    var raws := DepsNotReplaced(resolve, a);
    var k :| 0 <= k < |raws| && Replacement(resolve, raws[k]) == b && Surviving(packages[a].dependencies, raws[k], env) != [];
  }

  lemma {:induction false} PathPrefixInClosed(resolve: Resolve, packages: PackageSet, env: Env, index: map<PackageId, nat>,
                                              p: seq<PackageId>, i: nat)
    requires Closed(resolve, packages, env, index)
    requires IsPath(resolve, packages, env, p) && p[0] in index
    requires i < |p|
    ensures p[i] in index
  {
    if i > 0 {
      PathPrefixInClosed(resolve, packages, env, index, p, i - 1);
      StepStaysClosed(resolve, packages, env, index, p[i - 1], p[i]);
    }
  }

  /** A closed index that holds the root holds everything reachable from the root. */
  lemma ReachableInClosed(resolve: Resolve, packages: PackageSet, env: Env, index: map<PackageId, nat>, root: PackageId, id: PackageId)
    requires Closed(resolve, packages, env, index) && root in index
    requires Reachable(resolve, packages, env, root, id)
    ensures id in index
  {
    var p :| IsPath(resolve, packages, env, p) && p[0] == root && p[|p| - 1] == id;
    PathPrefixInClosed(resolve, packages, env, index, p, |p| - 1);
  }
}

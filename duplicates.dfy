/**
  `find_duplicates`: the package ids of the graph whose name is shared with another
  package id of the graph, sorted by the package-id order.

  The graph's index map is a `HashMap`, so its keys are visited in no particular
  order; each loop over a key set below picks its next element with `:|`, which
  stands for whatever order the map yields.  Nothing in the result depends on it.
*/
module Duplicates {
  import opened PackageIds
  import opened DepGraph

  // ------------------------------------------------------------ specification

  /** The ids in `ids` whose name is `name`. */
  ghost function NamedIn(ids: set<PackageId>, name: string): set<PackageId>
  {
    set id | id in ids && id.name == name
  }

  /** The ids in `ids` that share their name with at least one other id in `ids`. */
  ghost function DuplicateIds(ids: set<PackageId>): set<PackageId>
  {
    set id | id in ids && |NamedIn(ids, id.name)| > 1
  }

  predicate Distinct(s: seq<PackageId>)
  {
    forall i, j :: 0 <= i < j < |s| ==> s[i] != s[j]
  }

  /** Each element is at most its successor. */
  predicate Sorted(s: seq<PackageId>)
  {
    SortedIn(s, 0, |s|)
  }

  /** Every element is below every later one: sorted, and no element twice. */
  predicate StrictlySorted(s: seq<PackageId>)
  {
    forall i, j :: 0 <= i < j < |s| ==> IdLt(s[i], s[j])
  }

  // ------------------------------------------------------------- properties

  /** There are no duplicates exactly when no two ids have the same name. */
  lemma NoDuplicatesIffNamesDistinct(ids: set<PackageId>)
    ensures DuplicateIds(ids) == {} <==> forall a, b :: a in ids && b in ids && a.name == b.name ==> a == b
  {
    if forall a, b :: a in ids && b in ids && a.name == b.name ==> a == b {
      forall id | id in ids
        ensures |NamedIn(ids, id.name)| == 1
      {
        assert NamedIn(ids, id.name) == {id};
      }
    } else {
      var a, b :| a in ids && b in ids && a.name == b.name && a != b;
      assert {a, b} <= NamedIn(ids, a.name);
      SubsetCard({a, b}, NamedIn(ids, a.name));
      assert a in DuplicateIds(ids);
    }
  }

  /** An id is a duplicate exactly when another id has the same name. */
  lemma DuplicateIffNameShared(ids: set<PackageId>, id: PackageId)
    ensures id in DuplicateIds(ids) <==> id in ids && exists other :: other in ids && other != id && other.name == id.name
  {
    if id in ids && exists other :: other in ids && other != id && other.name == id.name {
      var other :| other in ids && other != id && other.name == id.name;
      assert {id, other} <= NamedIn(ids, id.name);
      SubsetCard({id, other}, NamedIn(ids, id.name));
    }
    if id in DuplicateIds(ids) {
      var named := NamedIn(ids, id.name);
      assert id in named && named != {id};
      assert named - {id} != {};
      var other :| other in named - {id};
    }
  }

  /** Two strictly sorted sequences with the same elements are equal: the result is unique. */
  lemma {:induction false} StrictlySortedUnique(s: seq<PackageId>, t: seq<PackageId>)
    requires StrictlySorted(s) && StrictlySorted(t)
    requires forall x :: x in s <==> x in t
    ensures s == t
    decreases |s|
  {
    assert s != [] ==> s[0] in t;
    assert t != [] ==> t[0] in s;
    if s != [] {
      SameLast(s, t);
      var s', t' := s[..|s| - 1], t[..|t| - 1];
      forall z
        ensures z in s' <==> z in t'
      {
        InitMembers(s, z);
        InitMembers(t, z);
      }
      StrictlySortedInit(s);
      StrictlySortedInit(t);
      StrictlySortedUnique(s', t');
      assert s == s' + [s[|s| - 1]];
      assert t == t' + [t[|t| - 1]];
    }
  }

  lemma StrictlySortedInit(s: seq<PackageId>)
    requires StrictlySorted(s) && s != []
    ensures StrictlySorted(s[..|s| - 1])
  {
    var s' := s[..|s| - 1];
    forall i, j | 0 <= i < j < |s'|
      ensures IdLt(s'[i], s'[j])
    {
      assert s'[i] == s[i] && s'[j] == s[j];
    }
  }

  /** Strictly sorted sequences with the same elements end in the same element. */
  lemma SameLast(s: seq<PackageId>, t: seq<PackageId>)
    requires StrictlySorted(s) && StrictlySorted(t) && s != [] && t != []
    requires forall x :: x in s <==> x in t
    ensures s[|s| - 1] == t[|t| - 1]
  {
    var x, y := s[|s| - 1], t[|t| - 1];
    LastIsGreatest(s);
    LastIsGreatest(t);
    if x != y {
      assert x in t && y in s;
      IdLtAsymmetric(x, y);
      assert false;
    }
  }

  lemma LastIsGreatest(s: seq<PackageId>)
    requires StrictlySorted(s) && s != []
    ensures forall z :: z in s && z != s[|s| - 1] ==> IdLt(z, s[|s| - 1])
  {
    forall z | z in s && z != s[|s| - 1]
      ensures IdLt(z, s[|s| - 1])
    {
      var i :| 0 <= i < |s| && s[i] == z;
    }
  }

  lemma InitMembers(s: seq<PackageId>, z: PackageId)
    requires StrictlySorted(s) && s != []
    ensures z in s[..|s| - 1] <==> z in s && z != s[|s| - 1]
  {
    var n := |s| - 1;
    if z in s[..n] {
      var i :| 0 <= i < n && s[..n][i] == z;
      assert s[i] == z && IdLt(s[i], s[n]);
      IdLtIrreflexive(z);
    }
    if z in s && z != s[n] {
      var i :| 0 <= i < |s| && s[i] == z;
      assert s[..n][i] == z;
    }
  }

  /** A sorted sequence without repeated elements is strictly sorted. */
  lemma {:induction false} SortedDistinctIsStrict(s: seq<PackageId>)
    requires Sorted(s) && Distinct(s)
    ensures StrictlySorted(s)
    decreases |s|
  {
    if |s| > 1 {
      var front := s[..|s| - 1];
      SortedDistinctIsStrict(front);
      var n := |s| - 1;
      assert IdLt(s[n - 1], s[n]);
      forall i, j | 0 <= i < j < |s|
        ensures IdLt(s[i], s[j])
      {
        if j == n && i < n - 1 {
          assert IdLt(front[i], front[n - 1]);
          IdLtTransitive(s[i], s[n - 1], s[n]);
        } else if j < n {
          assert IdLt(front[i], front[j]);
        }
      }
    }
  }

  /** Rearranging a sequence without repeated elements leaves none repeated. */
  lemma PermutationKeepsDistinct(s: seq<PackageId>, t: seq<PackageId>)
    requires multiset(s) == multiset(t) && Distinct(s)
    ensures Distinct(t)
  {
    forall i, j | 0 <= i < j < |t|
      ensures t[i] != t[j]
    {
      if t[i] == t[j] {
        var x := t[i];
        assert t == t[..j] + [t[j]] + t[j + 1..];
        assert x in t[..j];
        assert multiset(t)[x] >= 2;
        DistinctCount(s, x);
        assert false;
      }
    }
  }

  lemma {:induction false} DistinctCount(s: seq<PackageId>, x: PackageId)
    requires Distinct(s)
    ensures multiset(s)[x] <= 1
    decreases |s|
  {
    if s != [] {
      var front := s[..|s| - 1];
      assert s == front + [s[|s| - 1]];
      DistinctCount(front, x);
      if s[|s| - 1] == x {
        assert x !in front;
      }
    }
  }

  // ------------------------------------------------------------------ the code

  lemma DistinctConcat(a: seq<PackageId>, b: seq<PackageId>)
    requires Distinct(a) && Distinct(b) && forall x :: x in b ==> x !in a
    ensures Distinct(a + b)
  {
    forall i, j | 0 <= i < j < |a + b|
      ensures (a + b)[i] != (a + b)[j]
    {
      if i < |a| <= j {
        assert (a + b)[j] in b;
      }
    }
  }

  lemma NamedInAdd(seen: set<PackageId>, p: PackageId)
    requires p !in seen
    ensures |NamedIn(seen + {p}, p.name)| == |NamedIn(seen, p.name)| + 1
    ensures forall name :: name != p.name ==> NamedIn(seen + {p}, name) == NamedIn(seen, name)
  {
    assert NamedIn(seen + {p}, p.name) == NamedIn(seen, p.name) + {p};
  }

  /**
    The loop `for package in graph.nodes.keys()`: the number of ids of each name.  A
    name is a key exactly when some id has it.
  */
  method CountNames(ids: set<PackageId>) returns (counts: map<string, nat>)
    ensures forall name :: name in counts <==> NamedIn(ids, name) != {}
    ensures forall name :: name in counts ==> counts[name] == |NamedIn(ids, name)|
  {
    counts := map[];
    var rest := ids;
    ghost var seen: set<PackageId> := {};
    while rest != {}
      invariant rest + seen == ids && rest !! seen
      invariant forall name :: name in counts <==> NamedIn(seen, name) != {}
      invariant forall name :: name in counts ==> counts[name] == |NamedIn(seen, name)|
      decreases |rest|
    {
      var p :| p in rest;
      NamedInAdd(seen, p);
      counts := counts[p.name := (if p.name in counts then counts[p.name] else 0) + 1];
      rest := rest - {p};
      seen := seen + {p};
    }
  }

  /** `graph.nodes.keys().filter(|p| p.name() == name)`: the ids named `name`, each once. */
  method CollectNamed(ids: set<PackageId>, name: string) returns (named: seq<PackageId>)
    ensures Distinct(named)
    ensures forall id :: id in named <==> id in ids && id.name == name
  {
    named := [];
    var rest := ids;
    while rest != {}
      invariant rest <= ids && Distinct(named)
      invariant forall id :: id in named ==> id !in rest
      invariant forall id :: id in named <==> id in ids - rest && id.name == name
      decreases |rest|
    {
      var p :| p in rest;
      if p.name == name {
        named := named + [p];
      }
      rest := rest - {p};
    }
  }

  /** `q[lo..hi]` is sorted. */
  predicate SortedIn(q: seq<PackageId>, lo: nat, hi: nat)
  {
    forall k :: lo < k < hi <= |q| ==> IdLe(q[k - 1], q[k])
  }

  /** `dup_ids.sort()`: insertion sort by adjacent swaps. */
  method SortIds(a: array<PackageId>)
    modifies a
    ensures Sorted(a[..])
    ensures multiset(a[..]) == old(multiset(a[..]))
  {
    var i := 0;
    while i < a.Length
      invariant 0 <= i <= a.Length
      invariant SortedIn(a[..], 0, i)
      invariant multiset(a[..]) == old(multiset(a[..]))
    {
      InsertLast(a, i);
      i := i + 1;
    }
  }

  /** Sinks `a[i]` into the sorted prefix `a[..i]`. */
  method InsertLast(a: array<PackageId>, i: nat)
    modifies a
    requires i < a.Length && SortedIn(a[..], 0, i)
    ensures SortedIn(a[..], 0, i + 1)
    ensures multiset(a[..]) == old(multiset(a[..]))
  {
    var j := i;
    while j > 0 && IdLt(a[j], a[j - 1])
      invariant 0 <= j <= i
      invariant SinkState(a[..], i, j)
      invariant multiset(a[..]) == old(multiset(a[..]))
      decreases j
    {
      ghost var q := a[..];
      SinkStep(q, i, j);
      a[j - 1], a[j] := a[j], a[j - 1];
      assert a[..] == q[j - 1 := q[j]][j := q[j - 1]];
      j := j - 1;
    }
    if j > 0 {
      IdLeTotal(a[j - 1], a[j]);
    }
    SinkDone(a[..], i, j);
  }

  /**
    While `q[i]`'s value sinks to position `j`: the parts before and from `j` are
    sorted, and the element before `j` is at most the one after it.
  */
  predicate SinkState(q: seq<PackageId>, i: nat, j: nat)
  {
    && j <= i < |q|
    && SortedIn(q, 0, j) && SortedIn(q, j, i + 1)
    && (0 < j < i ==> IdLe(q[j - 1], q[j + 1]))
  }

  /** Swapping the sinking element with a greater predecessor keeps the sink state and the contents. */
  lemma SinkStep(q: seq<PackageId>, i: nat, j: nat)
    requires SinkState(q, i, j) && 0 < j && IdLt(q[j], q[j - 1])
    ensures SinkState(q[j - 1 := q[j]][j := q[j - 1]], i, j - 1)
    ensures multiset(q[j - 1 := q[j]][j := q[j - 1]]) == multiset(q)
  {
    var q' := q[j - 1 := q[j]][j := q[j - 1]];
    forall k | j - 1 < k < i + 1
      ensures IdLe(q'[k - 1], q'[k])
    {
      if k > j + 1 {
        assert q'[k - 1] == q[k - 1] && q'[k] == q[k];
      }
    }
    forall k | 0 < k < j - 1
      ensures IdLe(q'[k - 1], q'[k])
    {
      assert q'[k - 1] == q[k - 1] && q'[k] == q[k];
    }
    if 1 < j {
      assert IdLe(q[j - 2], q[j - 1]);
    }
  }

  /** Once the sinking element is at least its predecessor, the whole prefix is sorted. */
  lemma SinkDone(q: seq<PackageId>, i: nat, j: nat)
    requires SinkState(q, i, j) && (j > 0 ==> IdLe(q[j - 1], q[j]))
    ensures SortedIn(q, 0, i + 1)
  {
  }

  /**
    The loop over the names counted more than once, extending `dup_ids` with the ids
    of each: every duplicate id, each once.
  */
  method CollectDuplicates(ids: set<PackageId>, counts: map<string, nat>) returns (dupIds: seq<PackageId>)
    requires forall name :: name in counts <==> NamedIn(ids, name) != {}
    requires forall name :: name in counts ==> counts[name] == |NamedIn(ids, name)|
    ensures Distinct(dupIds)
    ensures forall id :: id in dupIds <==> id in DuplicateIds(ids)
  {
    dupIds := [];
    var names := counts.Keys;
    while names != {}
      invariant names <= counts.Keys
      invariant Distinct(dupIds)
      invariant forall id :: id in dupIds <==> id in ids && id.name !in names && |NamedIn(ids, id.name)| > 1
      decreases |names|
    {
      var name :| name in names;
      if counts[name] > 1 {
        var named := CollectNamed(ids, name);
        DistinctConcat(dupIds, named);
        dupIds := dupIds + named;
      }
      names := names - {name};
    }
  }

  /**
    `find_duplicates`: every id of the graph whose name another id of the graph
    shares, each exactly once, in increasing order.
  */
  method FindDuplicates(g: Graph) returns (dups: seq<PackageId>)
    ensures StrictlySorted(dups)
    ensures forall id :: id in dups <==> id in DuplicateIds(g.nodes.Keys)
  {
    var counts := CountNames(g.nodes.Keys);
    var dupIds := CollectDuplicates(g.nodes.Keys, counts);
    var a := new PackageId[|dupIds|](i requires 0 <= i < |dupIds| => dupIds[i]);
    assert a[..] == dupIds;
    SortIds(a);
    dups := a[..];
    PermutationKeepsDistinct(dupIds, dups);
    SortedDistinctIsStrict(dups);
    forall id
      ensures id in dups <==> id in dupIds
    {
      assert id in dups <==> id in multiset(dups);
      assert id in dupIds <==> id in multiset(dupIds);
    }
  }
}

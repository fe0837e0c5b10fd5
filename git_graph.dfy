/** The commit graph that `new_commits` discovers from the head tips, the ordering
    contract its topological sort must meet, and the filter to commits not yet stored. */
module GitGraph {
  import opened GitObjects
  import opened GitLog

  /** Each discovered commit id mapped to the set of its parent ids. */
  type Graph = map<Id, set<Id>>

  function ParentSet(parents: seq<Id>): (s: set<Id>)
    ensures forall p :: p in s <==> p in parents
  {
    set p | p in parents
  }

  /** `ids` are commits and every parent of one of them is among them. */
  ghost predicate ParentClosed(b: Backend, ids: set<Id>) {
    && ids <= b.commits.Keys
    && forall c, p :: c in ids && p in b.commits[c].parents ==> p in ids
  }

  ghost predicate CoversTips(b: Backend, tips: seq<Id>, ids: set<Id>) {
    (forall t :: t in tips ==> t in ids) && ParentClosed(b, ids)
  }

  /** `g` holds exactly the commits reachable from `tips` (the least parent-closed set
      holding them), each with the set of its parents. */
  ghost predicate IsHistory(b: Backend, tips: seq<Id>, g: Graph) {
    && CoversTips(b, tips, g.Keys)
    && (forall ids :: CoversTips(b, tips, ids) ==> g.Keys <= ids)
    && (forall c :: c in g ==> g[c] == ParentSet(b.commits[c].parents))
  }

  /** The history of a set of tips is determined by the backend: discovering it twice
      gives the same graph. */
  lemma HistoryIsUnique(b: Backend, tips: seq<Id>, g1: Graph, g2: Graph)
    requires IsHistory(b, tips, g1) && IsHistory(b, tips, g2)
    ensures g1 == g2
  {
    assert g1.Keys <= g2.Keys && g2.Keys <= g1.Keys;
    assert g1.Keys == g2.Keys;
  }

  /** No element of `s` is followed by (or is) one of its own parents. */
  predicate ParentsFirst(g: Graph, s: seq<Id>) {
    forall i, j :: 0 <= i <= j < |s| && s[i] in g ==> s[j] !in g[s[i]]
  }

  /** What `topological_sort` is taken to return (its body is not part of this
      model): every graph node exactly once, each parent before its children. */
  ghost predicate IsTopologicalOrder(g: Graph, order: seq<Id>) {
    && NoDuplicates(order)
    && (forall i :: 0 <= i < |order| ==> order[i] in g)
    && (forall c :: c in g ==> c in order)
    && ParentsFirst(g, order)
  }

  /** The ids of `order` that are not in `stored`, in order. */
  function Unstored(order: seq<Id>, stored: set<Id>): (r: seq<Id>)
    ensures forall x :: x in r <==> x in order && x !in stored
    ensures |r| <= |order|
  {
    if order == [] then []
    else if order[0] in stored then Unstored(order[1..], stored)
    else [order[0]] + Unstored(order[1..], stored)
  }

  lemma {:induction false} UnstoredKeepsOrder(g: Graph, order: seq<Id>, stored: set<Id>)
    requires ParentsFirst(g, order) && NoDuplicates(order)
    ensures ParentsFirst(g, Unstored(order, stored)) && NoDuplicates(Unstored(order, stored))
  {
    if order != [] {
      var tail := order[1..];
      assert ParentsFirst(g, tail) by {
        forall i, j | 0 <= i <= j < |tail| && tail[i] in g ensures tail[j] !in g[tail[i]] {
          assert tail[i] == order[i + 1] && tail[j] == order[j + 1];
        }
      }
      UnstoredKeepsOrder(g, tail, stored);
      var rest := Unstored(tail, stored);
      if order[0] !in stored {
        var r := [order[0]] + rest;
        forall j | 0 <= j < |rest| ensures rest[j] != order[0] && (order[0] in g ==> rest[j] !in g[order[0]]) {
          assert rest[j] in rest;
          var k :| 0 <= k < |tail| && tail[k] == rest[j];
          assert order[k + 1] == rest[j];
        }
        forall i, j | 0 <= i <= j < |r| && r[i] in g ensures r[j] !in g[r[i]] {
          if i == 0 {
            if j == 0 { assert order[0] !in g[order[0]]; }
            else { assert r[j] == rest[j - 1]; }
          } else {
            assert r[i] == rest[i - 1] && r[j] == rest[j - 1];
          }
        }
        forall i, j | 0 <= i < j < |r| ensures r[i] != r[j] {
          if i > 0 { assert r[i] == rest[i - 1] && r[j] == rest[j - 1]; }
          else { assert r[j] == rest[j - 1]; }
        }
      }
    }
  }

  /** What `new_commits` returns, given a sort that meets the ordering contract: every
      reachable commit not yet stored, exactly once, and each of its parents either
      already stored or earlier in the list, so indexing in this order never sees a
      missing ancestor. */
  lemma NewCommitsOrder(b: Backend, tips: seq<Id>, g: Graph, order: seq<Id>, stored: set<Id>)
    requires IsHistory(b, tips, g) && IsTopologicalOrder(g, order)
    ensures var r := Unstored(order, stored);
      && NoDuplicates(r)
      && (forall c :: c in r <==> c in g && c !in stored)
      && (forall j, p :: 0 <= j < |r| && r[j] in g && p in g[r[j]] ==> p in stored || p in r[..j])
  {
    var r := Unstored(order, stored);
    UnstoredKeepsOrder(g, order, stored);
    forall j, p | 0 <= j < |r| && r[j] in g && p in g[r[j]] ensures p in stored || p in r[..j] {
      assert p in b.commits[r[j]].parents;
      var i :| 0 <= i < |b.commits[r[j]].parents| && b.commits[r[j]].parents[i] == p;
      assert p in g;
      if p !in stored {
        assert p in r;
        var k :| 0 <= k < |r| && r[k] == p;
        assert r[..j][k] == p;
      }
    }
  }
}

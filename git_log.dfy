/** The paginated history walk behind `GitImplementation.log`, as a function of
    the remaining candidates, the ids already seen and the two counters. */
module GitLog {
  import opened GitObjects

  ghost predicate AllCommits(b: Backend, ids: seq<Id>) {
    forall i :: 0 <= i < |ids| ==> ids[i] in b.commits
  }

  predicate NoDuplicates(s: seq<Id>) {
    forall i, j :: 0 <= i < j < |s| ==> s[i] != s[j]
  }

  /** The walk from FIFO queue `candidates`: pop the head; drop it if already seen;
      otherwise mark it seen, emit it when `skip` is 0 (spending one of `count`) or
      spend one of `skip`, and queue its parents in order. Stops when `count` is 0
      or the queue is empty; returns the emitted ids and the queue left over.
      Like Python's `while count`, a negative `count` never reaches 0 and a negative
      `skip` never reaches 0 either. */
  function LogFrom(b: Backend, candidates: seq<Id>, seen: set<Id>, skip: int, count: int): (r: (seq<Id>, seq<Id>))
    requires b.ParentsClosed() && AllCommits(b, candidates) && seen <= b.commits.Keys
    ensures count >= 0 ==> |r.0| <= count
    ensures count == 0 ==> r == ([], candidates)
    decreases |b.commits.Keys - seen|, |candidates|
  {
    if count == 0 || candidates == [] then ([], candidates)
    else
      var x := candidates[0];
      if x in seen then LogFrom(b, candidates[1..], seen, skip, count)
      else
        var more := candidates[1..] + b.commits[x].parents;
        VisitShrinks(b.commits.Keys, seen, x);
        if skip == 0 then
          var (r, f) := LogFrom(b, more, seen + {x}, 0, count - 1);
          ([x] + r, f)
        else LogFrom(b, more, seen + {x}, skip - 1, count)
  }

  /** The emitted ids are commits not seen before, and the frontier is made of commits. */
  lemma {:induction false} LogResultFresh(b: Backend, candidates: seq<Id>, seen: set<Id>, skip: int, count: int)
    requires b.ParentsClosed() && AllCommits(b, candidates) && seen <= b.commits.Keys
    ensures var (r, f) := LogFrom(b, candidates, seen, skip, count);
      && (forall i :: 0 <= i < |r| ==> r[i] in b.commits && r[i] !in seen)
      && AllCommits(b, f)
    decreases |b.commits.Keys - seen|, |candidates|
  {
    if count == 0 || candidates == [] {
    } else {
      var x := candidates[0];
      if x in seen {
        LogResultFresh(b, candidates[1..], seen, skip, count);
      } else {
        var more := candidates[1..] + b.commits[x].parents;
        VisitShrinks(b.commits.Keys, seen, x);
        if skip == 0 {
          LogResultFresh(b, more, seen + {x}, 0, count - 1);
        } else {
          LogResultFresh(b, more, seen + {x}, skip - 1, count);
        }
      }
    }
  }

  /** No id is emitted twice. */
  lemma {:induction false} LogResultDistinct(b: Backend, candidates: seq<Id>, seen: set<Id>, skip: int, count: int)
    requires b.ParentsClosed() && AllCommits(b, candidates) && seen <= b.commits.Keys
    ensures var (r, f) := LogFrom(b, candidates, seen, skip, count);
      NoDuplicates(r)
    decreases |b.commits.Keys - seen|, |candidates|
  {
    if count == 0 || candidates == [] {
    } else {
      var x := candidates[0];
      if x in seen {
        LogResultDistinct(b, candidates[1..], seen, skip, count);
      } else {
        var more := candidates[1..] + b.commits[x].parents;
        VisitShrinks(b.commits.Keys, seen, x);
        if skip == 0 {
          LogResultDistinct(b, more, seen + {x}, 0, count - 1);
          LogResultFresh(b, more, seen + {x}, 0, count - 1);
        } else {
          LogResultDistinct(b, more, seen + {x}, skip - 1, count);
        }
      }
    }
  }

  /** The emitted ids are distinct commits not seen before, and there are at most `count` of them. */
  lemma LogResultShape(b: Backend, candidates: seq<Id>, seen: set<Id>, skip: int, count: int)
    requires b.ParentsClosed() && AllCommits(b, candidates) && seen <= b.commits.Keys
    ensures var (r, f) := LogFrom(b, candidates, seen, skip, count);
      && NoDuplicates(r)
      && (forall i :: 0 <= i < |r| ==> r[i] in b.commits && r[i] !in seen)
      && (count >= 0 ==> |r| <= count)
      && AllCommits(b, f)
  {
    LogResultFresh(b, candidates, seen, skip, count);
    LogResultDistinct(b, candidates, seen, skip, count);
  }

  /** With a non-negative `count`, a non-empty frontier means the page is full:
      the walk stops early only because `count` ids were emitted. */
  lemma {:induction false} LogStopsOnlyWhenFull(b: Backend, candidates: seq<Id>, seen: set<Id>, skip: int, count: int)
    requires b.ParentsClosed() && AllCommits(b, candidates) && seen <= b.commits.Keys
    requires count >= 0
    ensures var (r, f) := LogFrom(b, candidates, seen, skip, count);
      f != [] ==> |r| == count
    decreases |b.commits.Keys - seen|, |candidates|
  {
    if count == 0 || candidates == [] {
    } else {
      var x := candidates[0];
      if x in seen {
        LogStopsOnlyWhenFull(b, candidates[1..], seen, skip, count);
      } else {
        var more := candidates[1..] + b.commits[x].parents;
        VisitShrinks(b.commits.Keys, seen, x);
        if skip == 0 {
          LogStopsOnlyWhenFull(b, more, seen + {x}, 0, count - 1);
        } else {
          LogStopsOnlyWhenFull(b, more, seen + {x}, skip - 1, count);
        }
      }
    }
  }

  /** `skip` only hides the first ids: the page with skip `s` and count `n` is the
      page with skip 0 and count `s + n` without its first `s` ids, and both walks
      stop at the same frontier. */
  lemma {:induction false} LogSkipIsDrop(b: Backend, candidates: seq<Id>, seen: set<Id>, skip: nat, count: nat)
    requires b.ParentsClosed() && AllCommits(b, candidates) && seen <= b.commits.Keys
    requires count > 0
    ensures var (r, f) := LogFrom(b, candidates, seen, 0, skip + count);
      var (rs, fs) := LogFrom(b, candidates, seen, skip, count);
      && rs == (if |r| <= skip then [] else r[skip..])
      && fs == f
    decreases |b.commits.Keys - seen|, |candidates|
  {
    if candidates == [] || skip == 0 {
    } else {
      var x := candidates[0];
      if x in seen {
        LogSkipIsDrop(b, candidates[1..], seen, skip, count);
      } else {
        var more := candidates[1..] + b.commits[x].parents;
        VisitShrinks(b.commits.Keys, seen, x);
        LogSkipIsDrop(b, more, seen + {x}, skip - 1, count);
        var (r', f') := LogFrom(b, more, seen + {x}, 0, skip - 1 + count);
        assert LogFrom(b, candidates, seen, 0, skip + count) == ([x] + r', f');
        assert skip - 1 + count == skip + count - 1;
        if |r'| > skip - 1 {
          assert ([x] + r')[skip..] == r'[skip - 1..];
        }
      }
    }
  }

  /** An unbounded walk (negative `count`, no skip) empties the queue and emits every
      commit reachable from it that was not seen before: the queued ids are all
      seen or emitted, and so are the parents of every emitted id. */
  lemma {:induction false} LogUnboundedIsExhaustive(b: Backend, candidates: seq<Id>, seen: set<Id>, count: int)
    requires b.ParentsClosed() && AllCommits(b, candidates) && seen <= b.commits.Keys
    requires count < 0
    ensures var (r, f) := LogFrom(b, candidates, seen, 0, count);
      && f == []
      && (forall k :: 0 <= k < |r| ==> r[k] in b.commits)
      && (forall i :: 0 <= i < |candidates| ==> candidates[i] in seen || candidates[i] in r)
      && (forall k, i :: 0 <= k < |r| && 0 <= i < |b.commits[r[k]].parents| ==>
            b.commits[r[k]].parents[i] in seen || b.commits[r[k]].parents[i] in r)
    decreases |b.commits.Keys - seen|, |candidates|
  {
    LogResultShape(b, candidates, seen, 0, count);
    if candidates == [] {
    } else {
      var x := candidates[0];
      if x in seen {
        LogUnboundedIsExhaustive(b, candidates[1..], seen, count);
      } else {
        var more := candidates[1..] + b.commits[x].parents;
        VisitShrinks(b.commits.Keys, seen, x);
        LogUnboundedIsExhaustive(b, more, seen + {x}, count - 1);
        var (r', f') := LogFrom(b, more, seen + {x}, 0, count - 1);
        var r := [x] + r';
        assert LogFrom(b, candidates, seen, 0, count) == (r, f');
        forall i | 0 <= i < |candidates|
          ensures candidates[i] in seen || candidates[i] in r
        {
          if i > 0 { assert candidates[i] == more[i - 1]; }
        }
        forall k, i | 0 <= k < |r| && 0 <= i < |b.commits[r[k]].parents|
          ensures b.commits[r[k]].parents[i] in seen || b.commits[r[k]].parents[i] in r
        {
          if k == 0 {
            assert b.commits[x].parents[i] == more[|candidates| - 1 + i];
          } else {
            assert r[k] == r'[k - 1];
          }
        }
      }
    }
  }

  /** The linear chain H -> G -> F -> E -> D. */
  function ChainCommit(parents: seq<Id>): CommitObject {
    CommitObject(parents, "tree", Actor("a", "a@example.com"), 0, 0, Actor("a", "a@example.com"), 0, 0, Wrappers.None)
  }

  function Chain(): (b: Backend)
    ensures b.ParentsClosed()
  {
    Backend(map["H" := ChainCommit(["G"]), "G" := ChainCommit(["F"]), "F" := ChainCommit(["E"]),
                "E" := ChainCommit(["D"]), "D" := ChainCommit([])],
            map["tree" := []], [], [], [])
  }

  /** On the chain, skip 1 and count 2 from H give [G, F] with frontier [E]. */
  lemma LogChainExample()
    ensures LogFrom(Chain(), ["H"], {}, 1, 2) == (["G", "F"], ["E"])
  {
    var b := Chain();
    assert b.commits["H"].parents == ["G"] && b.commits["G"].parents == ["F"] && b.commits["F"].parents == ["E"];
    assert {} + {"H"} == {"H"};
    assert {"H"} + {"G"} == {"H", "G"};
    assert {"H", "G"} + {"F"} == {"H", "G", "F"};
    assert ["H"][1..] + b.commits["H"].parents == ["G"];
    assert ["G"][1..] + b.commits["G"].parents == ["F"];
    assert ["F"][1..] + b.commits["F"].parents == ["E"];
    assert LogFrom(b, ["E"], {"H", "G", "F"}, 0, 0) == ([], ["E"]);
    assert "F" !in {"H", "G"};
    assert AllCommits(b, ["E"]) && AllCommits(b, ["F"]) && AllCommits(b, ["G"]) && AllCommits(b, ["H"]);
    var step := LogFrom(b, ["E"], {"H", "G", "F"}, 0, 0);
    assert LogFrom(b, ["F"], {"H", "G"}, 0, 1) == (["F"] + step.0, step.1);
    assert ["F"] + step.0 == ["F"];
    assert LogFrom(b, ["F"], {"H", "G"}, 0, 1) == (["F"], ["E"]);
    assert "G" !in {"H"};
    var step2 := LogFrom(b, ["F"], {"H", "G"}, 0, 1);
    assert LogFrom(b, ["G"], {"H"}, 0, 2) == (["G"] + step2.0, step2.1);
    assert ["G"] + ["F"] == ["G", "F"];
    assert LogFrom(b, ["G"], {"H"}, 0, 2) == (["G", "F"], ["E"]);
  }
}

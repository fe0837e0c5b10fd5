/** The git repository record and its `GitImplementation`: lifecycle, reference
    refresh, commit discovery, commit/tree indexing, navigation and the log walk. */
module GitRepo {
  import opened Wrappers
  import opened GitObjects
  import opened GitLog
  import opened GitGraph
  import opened GitStore
  import opened GitIndex
  import opened Text

  /** A stored head, branch or tag: `Object(name=..., object_id=...)`. */
  datatype NamedRef = NamedRef(name: string, objectId: Id)

  /** A durable checkpoint (`session(repo).flush()` with the status it wrote), or
      the call to the repository's full refresh. */
  datatype Event = Flushed(status: string) | Refreshed

  /** The references that are `is_valid()`, in backend order, as stored references. */
  function ValidRefs(refs: seq<Ref>): (r: seq<NamedRef>)
    ensures |r| <= |refs|
  {
    if refs == [] then []
    else (if refs[0].valid then [NamedRef(refs[0].name, refs[0].target)] else []) + ValidRefs(refs[1..])
  }

  /** A stored reference comes from a valid backend reference, and every valid
      backend reference is stored. */
  lemma {:induction false} ValidRefsExact(refs: seq<Ref>)
    ensures forall n :: n in ValidRefs(refs) <==> Ref(n.name, n.objectId, true) in refs
  {
    if refs != [] {
      ValidRefsExact(refs[1..]);
      assert forall x :: x in refs <==> x == refs[0] || x in refs[1..];
    }
  }

  function HeadIds(heads: seq<NamedRef>): (ids: seq<Id>)
    ensures |ids| == |heads| && forall i :: 0 <= i < |heads| ==> ids[i] == heads[i].objectId
  {
    if heads == [] then [] else [heads[0].objectId] + HeadIds(heads[1..])
  }

  class Repository {
    const id: string
    const scmUrlPath: string
    var status: string
    var heads: seq<NamedRef>
    var branches: seq<NamedRef>
    var repoTags: seq<NamedRef>
    /** The checkpoints and refreshes so far, in order. */
    var events: seq<Event>

    constructor (id: string, scmUrlPath: string, status: string)
      ensures this.id == id && this.scmUrlPath == scmUrlPath && this.status == status
      ensures heads == [] && branches == [] && repoTags == [] && events == []
    {
      this.id, this.scmUrlPath, this.status := id, scmUrlPath, status;
      heads, branches, repoTags, events := [], [], [], [];
    }

    /** `'git clone git://%s' % scm_url_path`. */
    function ReadonlyCloneCommand(): (cmd: string)
      ensures StartsWith(cmd, "git clone git://") && |cmd| == 16 + |scmUrlPath|
      ensures cmd[16..] == scmUrlPath
    {
      var cmd := "git clone git://" + scmUrlPath;
      assert cmd[..16] == "git clone git://";
      cmd
    }

    /** `'git clone ssh://%s@%s' % (username, scm_url_path)`. */
    function ReadwriteCloneCommand(username: string): (cmd: string)
      ensures StartsWith(cmd, "git clone ssh://") && |cmd| == 17 + |username| + |scmUrlPath|
      ensures cmd[16..16 + |username|] == username && cmd[16 + |username|] == '@'
      ensures cmd[17 + |username|..] == scmUrlPath
    {
      var cmd := "git clone ssh://" + username + "@" + scmUrlPath;
      assert cmd[..16] == "git clone ssh://";
      cmd
    }
  }

  /** The two commands clone the same path: they differ only in the scheme and in
      the user named before it. */
  lemma CloneCommandsShareThePath(r: Repository, username: string)
    ensures var ro := r.ReadonlyCloneCommand();
      var rw := r.ReadwriteCloneCommand(username);
      && ro[..10] == rw[..10] == "git clone "
      && rw[17 + |username|..] == ro[16..]
  {
    var ro := r.ReadonlyCloneCommand();
    var rw := r.ReadwriteCloneCommand(username);
    assert ro[..10] == ro[..16][..10];
    assert rw[..10] == rw[..16][..10];
  }

  /** The state of the `new_commits` stack walk, in three parts: the graph so far
      records commits with their parent sets; every tip and every parent of a
      recorded commit is recorded or still on the stack; and nothing outside the
      history of the tips is recorded or stacked. */
  ghost predicate WalkRecords(b: Backend, graph: Graph, toVisit: seq<Id>) {
    && b.ParentsClosed()
    && graph.Keys <= b.commits.Keys
    && (forall y :: y in toVisit ==> y in b.commits)
    && (forall c :: c in graph ==> graph[c] == ParentSet(b.commits[c].parents))
  }

  ghost predicate WalkCovers(b: Backend, tips: seq<Id>, graph: Graph, toVisit: seq<Id>) {
    && (forall t :: t in tips ==> t in graph || t in toVisit)
    && (forall c, p :: c in graph && c in b.commits && p in b.commits[c].parents ==> p in graph || p in toVisit)
  }

  ghost predicate WalkWithinHistory(b: Backend, tips: seq<Id>, graph: Graph, toVisit: seq<Id>) {
    forall ids :: CoversTips(b, tips, ids) ==> graph.Keys <= ids && forall y :: y in toVisit ==> y in ids
  }

  ghost predicate WalkInvariant(b: Backend, tips: seq<Id>, graph: Graph, toVisit: seq<Id>) {
    WalkRecords(b, graph, toVisit) && WalkCovers(b, tips, graph, toVisit) && WalkWithinHistory(b, tips, graph, toVisit)
  }

  lemma WalkStart(b: Backend, tips: seq<Id>)
    requires b.ParentsClosed() && forall t :: t in tips ==> t in b.commits
    ensures WalkInvariant(b, tips, map[], tips)
  {
  }

  /** Popping a commit already recorded. */
  lemma WalkSkip(b: Backend, tips: seq<Id>, graph: Graph, rest: seq<Id>, x: Id)
    requires WalkInvariant(b, tips, graph, rest + [x]) && x in graph
    ensures WalkInvariant(b, tips, graph, rest)
  {
    assert forall y :: y in rest + [x] <==> y in rest || y == x;
  }

  /** Popping a new commit: record it and push its parents. */
  lemma WalkVisit(b: Backend, tips: seq<Id>, graph: Graph, rest: seq<Id>, x: Id)
    requires WalkInvariant(b, tips, graph, rest + [x]) && x !in graph
    ensures x in b.commits
    ensures WalkInvariant(b, tips, graph[x := ParentSet(b.commits[x].parents)], rest + b.commits[x].parents)
    ensures |b.commits.Keys - graph[x := ParentSet(b.commits[x].parents)].Keys| < |b.commits.Keys - graph.Keys|
  {
    WalkVisitRecords(b, graph, rest, x);
    GraphGrowShrinks(b, graph, x, ParentSet(b.commits[x].parents));
    WalkVisitCovers(b, tips, graph, rest, x);
    WalkVisitWithinHistory(b, tips, graph, rest, x);
  }

  lemma GraphGrowShrinks(b: Backend, graph: Graph, x: Id, ps: set<Id>)
    requires x in b.commits && x !in graph
    ensures |b.commits.Keys - graph[x := ps].Keys| < |b.commits.Keys - graph.Keys|
  {
    VisitShrinks(b.commits.Keys, graph.Keys, x);
    assert graph[x := ps].Keys == graph.Keys + {x};
  }

  lemma WalkVisitRecords(b: Backend, graph: Graph, rest: seq<Id>, x: Id)
    requires WalkRecords(b, graph, rest + [x]) && x !in graph
    ensures x in b.commits && WalkRecords(b, graph[x := ParentSet(b.commits[x].parents)], rest + b.commits[x].parents)
  {
    assert x in rest + [x];
    var ps := b.commits[x].parents;
    forall y | y in rest + ps ensures y in b.commits {
      if y in ps {
        var i :| 0 <= i < |ps| && ps[i] == y;
      } else {
        assert y in rest + [x];
      }
    }
  }

  lemma WalkVisitCovers(b: Backend, tips: seq<Id>, graph: Graph, rest: seq<Id>, x: Id)
    requires WalkRecords(b, graph, rest + [x]) && WalkCovers(b, tips, graph, rest + [x]) && x !in graph && x in b.commits
    ensures WalkCovers(b, tips, graph[x := ParentSet(b.commits[x].parents)], rest + b.commits[x].parents)
  {
  }

  lemma WalkVisitWithinHistory(b: Backend, tips: seq<Id>, graph: Graph, rest: seq<Id>, x: Id)
    requires WalkRecords(b, graph, rest + [x]) && WalkWithinHistory(b, tips, graph, rest + [x]) && x !in graph && x in b.commits
    ensures WalkWithinHistory(b, tips, graph[x := ParentSet(b.commits[x].parents)], rest + b.commits[x].parents)
  {
  }

  lemma WalkDone(b: Backend, tips: seq<Id>, graph: Graph)
    requires WalkInvariant(b, tips, graph, [])
    ensures IsHistory(b, tips, graph)
  {
  }

  /** The stack walk itself, over a snapshot of the backend. */
  method WalkHistory(b: Backend, tips: seq<Id>) returns (graph: Graph)
    requires b.ParentsClosed()
    requires forall t :: t in tips ==> t in b.commits
    ensures IsHistory(b, tips, graph)
  {
    graph := map[];
    var toVisit := tips;
    WalkStart(b, tips);
    while toVisit != []
      invariant WalkInvariant(b, tips, graph, toVisit)
      decreases |b.commits.Keys - graph.Keys|, |toVisit|
    {
      var x := toVisit[|toVisit| - 1];
      var rest := toVisit[..|toVisit| - 1];
      assert toVisit == rest + [x];
      if x in graph {
        WalkSkip(b, tips, graph, rest, x);
        toVisit := rest;
      } else {
        WalkVisit(b, tips, graph, rest, x);
        graph := graph[x := ParentSet(b.commits[x].parents)];
        toVisit := rest + b.commits[x].parents;
      }
    }
    WalkDone(b, tips, graph);
  }

  /** The loop of `log` over a snapshot of the backend: a FIFO queue of candidates,
      the set of ids seen, and the two counters. */
  method LogWalk(b: Backend, objectId: Id, skip: int, count: int) returns (page: (seq<Id>, seq<Id>))
    requires b.ParentsClosed() && objectId in b.commits
    ensures page == LogFrom(b, [objectId], {}, skip, count)
  {
    var candidates := [objectId];
    var result := [];
    var seen: set<Id> := {};
    var skipLeft, countLeft := skip, count;
    assert [] + LogFrom(b, [objectId], {}, skip, count).0 == LogFrom(b, [objectId], {}, skip, count).0;
    while countLeft != 0 && candidates != []
      invariant AllCommits(b, candidates) && seen <= b.commits.Keys
      invariant LogFrom(b, [objectId], {}, skip, count) ==
                (result + LogFrom(b, candidates, seen, skipLeft, countLeft).0,
                 LogFrom(b, candidates, seen, skipLeft, countLeft).1)
      decreases |b.commits.Keys - seen|, |candidates|
    {
      var x := candidates[0];
      var rest := candidates[1..];
      if x in seen {
        candidates := rest;
        continue;
      }
      VisitShrinks(b.commits.Keys, seen, x);
      var more := rest + b.commits[x].parents;
      ghost var next := LogFrom(b, more, seen + {x}, if skipLeft == 0 then 0 else skipLeft - 1,
                                if skipLeft == 0 then countLeft - 1 else countLeft);
      seen := seen + {x};
      if skipLeft == 0 {
        assert result + ([x] + next.0) == (result + [x]) + next.0;
        result := result + [x];
        countLeft := countLeft - 1;
      } else {
        skipLeft := skipLeft - 1;
      }
      candidates := more;
    }
    assert result + [] == result;
    page := (result, candidates);
  }

  class GitImplementation {
    /** The backend handle (`self._git`). */
    var git: Backend
    const repo: Repository
    const store: Store

    constructor (repo: Repository, store: Store, git: Backend)
      ensures this.repo == repo && this.store == store && this.git == git
    {
      this.repo, this.store, this.git := repo, store, git;
    }

    /** `init`: a new empty backend, and the repository is ready at once. */
    method Init()
      modifies this, repo
      ensures git == EmptyBackend()
      ensures repo.status == "ready"
      ensures repo.events == old(repo.events)
      ensures repo.heads == old(repo.heads) && repo.branches == old(repo.branches) && repo.repoTags == old(repo.repoTags)
    {
      git := EmptyBackend();
      repo.status := "ready";
    }

    /** `clone_from`: the backend becomes a copy of `source`; the status `analyzing` is
      flushed before the refresh, and `ready` is set and flushed only after it. */
    method CloneFrom(source: Backend)
      modifies this, repo, store
      ensures git == source
      ensures repo.status == "ready"
      ensures repo.events == old(repo.events) + [Flushed("analyzing"), Refreshed, Flushed("ready")]
    {
      git := source;
      repo.status := "analyzing";
      repo.events := repo.events + [Flushed(repo.status)];
      repo.events := repo.events + [Refreshed];
      repo.status := "ready";
      repo.events := repo.events + [Flushed(repo.status)];
    }

    /** `refresh_heads`: heads, branches and tags are replaced wholesale by the valid
      backend references, then flushed. */
    method RefreshHeads()
      modifies repo
      ensures repo.heads == ValidRefs(git.heads)
      ensures repo.branches == ValidRefs(git.branches)
      ensures repo.repoTags == ValidRefs(git.tags)
      ensures repo.status == old(repo.status)
      ensures repo.events == old(repo.events) + [Flushed(repo.status)]
    {
      repo.heads := ValidRefs(git.heads);
      repo.branches := ValidRefs(git.branches);
      repo.repoTags := ValidRefs(git.tags);
      repo.events := repo.events + [Flushed(repo.status)];
    }

    /** The graph walk of `new_commits`: a stack from the tips; each popped commit not
      yet in the graph is recorded with its parent set and its parents pushed. */
    method CommitGraph(tips: seq<Id>) returns (graph: Graph)
      requires git.Valid()
      requires forall t :: t in tips ==> t in git.commits
      ensures IsHistory(git, tips, graph)
    {
      graph := WalkHistory(git, tips);
    }

    /** `new_commits`: fails when a stored head does not resolve in the backend;
      otherwise the history of the heads, ordered by `sort`, without the commits
      already stored. */
    method NewCommits(sort: Graph -> seq<Id>) returns (r: Option<seq<Id>>)
      requires git.Valid()
      ensures r.None? <==> exists i :: 0 <= i < |repo.heads| && repo.heads[i].objectId !in git.commits
      ensures r.Some? ==> (exists g :: IsHistory(git, HeadIds(repo.heads), g) &&
                                       r.value == Unstored(sort(g), store.commits.Keys))
    {
      var tips := HeadIds(repo.heads);
      if exists t :: t in tips && t !in git.commits {
        return None;
      }
      var g := CommitGraph(tips);
      r := Some(Unstored(sort(g), store.commits.Keys));
    }

    /** `commit_context`: `prev` is every stored commit among the parents; `next` is
      every stored commit that has this one as a parent and is indexed in this
      repository. */
    function CommitContext(objectId: Id, parentIds: seq<Id>): (ctx: (set<Id>, set<Id>))
      reads store
      ensures forall k :: k in ctx.0 <==> k in store.commits && k in parentIds
      ensures forall k :: k in ctx.1 <==>
                (k in store.commits && objectId in store.commits[k].parentIds && repo.id in store.commits[k].repositories)
    {
      (set k | k in store.commits && k in parentIds,
       set k | k in store.commits && objectId in store.commits[k].parentIds && repo.id in store.commits[k].repositories)
    }

    /** `refresh_commit`: fails, changing nothing, when the commit does not resolve in
      the backend; otherwise copies the commit's tree id, signatures (with the
      timezone offset subtracted from each timestamp), message (`''` when absent) and
      parent ids into its stored record, and indexes its tree when that is new. */
    method RefreshCommit(ci: Id) returns (ok: bool)
      requires git.Valid() && ci in store.commits
      modifies store
      ensures ok <==> ci in git.commits
      ensures !ok ==> store.commits == old(store.commits) && store.trees == old(store.trees) && store.blobs == old(store.blobs)
      ensures ok ==> store.commits.Keys == old(store.commits).Keys
      ensures ok ==> forall k :: k in old(store.commits) && k != ci ==> store.commits[k] == old(store.commits)[k]
      ensures ok ==>
        var obj, r := git.commits[ci], store.commits[ci];
        && r.treeId == Some(obj.tree)
        && r.committed == Some(Signature(obj.committer.name, obj.committer.email, obj.committedDate - obj.committerTzOffset))
        && r.authored == Some(Signature(obj.author.name, obj.author.email, obj.authoredDate - obj.authorTzOffset))
        && r.message == obj.message.GetOr("")
        && r.parentIds == obj.parents
        && r.repositories == old(store.commits)[ci].repositories
      ensures ok ==> git.commits[ci].tree in store.trees
      ensures Kept(old(store.trees), old(store.blobs), store.trees, store.blobs, {})
      ensures ok && git.commits[ci].tree in old(store.trees) ==>
                store.trees == old(store.trees) && store.blobs == old(store.blobs)
      ensures ok && git.commits[ci].tree !in old(store.trees) ==>
                var root := git.commits[ci].tree;
                store.trees[root] == TreeRecord(EntryMap(git.trees[root]), Some(Context.CommitContext(ci)), Some(ci))
      ensures ok && git.commits[ci].tree !in old(store.trees) ==>
                ChildrenIn(git, git.commits[ci].tree, store.trees.Keys, store.blobs.Keys)
      ensures ok ==> forall k :: k in store.trees && k !in old(store.trees) && k != git.commits[ci].tree ==>
                FreshTree(git, ci, k, store.trees[k]) && ChildrenIn(git, k, store.trees.Keys, store.blobs.Keys)
      ensures forall k :: k in store.blobs && k !in old(store.blobs) ==> FreshBlob(git, ci, k, store.blobs[k])
      ensures Closed(git, old(store.trees), old(store.blobs)) ==> Closed(git, store.trees, store.blobs)
    {
      var b := git;
      if ci !in b.commits {
        return false;
      }
      var obj := b.commits[ci];
      var rec := store.commits[ci];
      store.commits := store.commits[ci := rec.(
        treeId := Some(obj.tree),
        committed := Some(Signature(obj.committer.name, obj.committer.email, obj.committedDate - obj.committerTzOffset)),
        authored := Some(Signature(obj.author.name, obj.author.email, obj.authoredDate - obj.authorTzOffset)),
        message := obj.message.GetOr(""),
        parentIds := obj.parents)];
      IndexCommitTree(b, store, obj.tree, ci);
      ok := true;
    }

    /** `log`: fails when the start id does not resolve; otherwise the walk from it. */
    method Log(objectId: Id, skip: int, count: int) returns (r: Option<(seq<Id>, seq<Id>)>)
      requires git.Valid()
      ensures r.None? <==> objectId !in git.commits
      ensures r.Some? ==> r.value == LogFrom(git, [objectId], {}, skip, count)
    {
      if objectId !in git.commits {
        return None;
      }
      var page := LogWalk(git, objectId, skip, count);
      r := Some(page);
    }
  }

  /** Navigation is two-sided: a `next` commit of `a` has `a` among its `prev`, and a
      `prev` commit of `b` indexed in this repository has `b` among its `next`. */
  lemma NavigationIsSymmetric(impl: GitImplementation, a: Id, b: Id)
    requires a in impl.store.commits && b in impl.store.commits
    ensures b in impl.CommitContext(a, impl.store.commits[a].parentIds).1 ==>
              a in impl.CommitContext(b, impl.store.commits[b].parentIds).0
    ensures a in impl.CommitContext(b, impl.store.commits[b].parentIds).0 &&
            impl.repo.id in impl.store.commits[b].repositories ==>
              b in impl.CommitContext(a, impl.store.commits[a].parentIds).1
  {
  }
}

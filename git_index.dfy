/** Indexing of a backend tree into the store (`_refresh_tree`): every tree and blob
    reached for the first time gets a record naming where it was reached from. */
module GitIndex {
  import opened Wrappers
  import opened GitObjects
  import opened GitStore
  import opened Sets

  lemma {:induction false} EntryIdsSnoc(entries: seq<Entry>, e: Entry)
    ensures EntryIds(entries + [e]) == EntryIds(entries) + {e.id}
  {
    if entries != [] {
      assert (entries + [e])[1..] == entries[1..] + [e];
      EntryIdsSnoc(entries[1..], e);
    }
  }

  lemma EntryIdsPrefix(entries: seq<Entry>, i: int)
    requires 0 <= i < |entries|
    ensures EntryIds(entries[..i + 1]) == EntryIds(entries[..i]) + {entries[i].id}
  {
    assert entries[..i + 1] == entries[..i] + [entries[i]];
    EntryIdsSnoc(entries[..i], entries[i]);
  }

  lemma EntryIdsHas(entries: seq<Entry>)
    ensures forall e :: e in entries ==> e.id in EntryIds(entries)
  {
    forall e | e in entries ensures e.id in EntryIds(entries) {
      var j :| 0 <= j < |entries| && entries[j] == e;
    }
  }

  /** From store state (`trees0`, `blobs0`) to (`trees`, `blobs`): records were only
      added; each added tree record is fresh from commit `ci` and has all of its
      children stored; each added blob record is fresh from `ci`. */
  ghost predicate Indexed(b: Backend, ci: Id,
                          trees0: map<Id, TreeRecord>, blobs0: map<Id, BlobRecord>,
                          trees: map<Id, TreeRecord>, blobs: map<Id, BlobRecord>) {
    && trees0.Keys <= trees.Keys && blobs0.Keys <= blobs.Keys
    && (forall k {:trigger FreshTree(b, ci, k, trees[k])} :: k in trees && k !in trees0 ==> FreshTree(b, ci, k, trees[k]))
    && (forall k {:trigger FreshBlob(b, ci, k, blobs[k])} :: k in blobs && k !in blobs0 ==> FreshBlob(b, ci, k, blobs[k]))
    && AllChildrenIn(b, trees.Keys - trees0.Keys, trees.Keys, blobs.Keys)
  }

  /** The records present in (`trees0`, `blobs0`) are unchanged, except tree `except`. */
  ghost predicate Kept(trees0: map<Id, TreeRecord>, blobs0: map<Id, BlobRecord>,
                       trees: map<Id, TreeRecord>, blobs: map<Id, BlobRecord>, except: set<Id>) {
    && (forall k :: k in trees0 && k !in except ==> k in trees && trees[k] == trees0[k])
    && (forall k :: k in blobs0 ==> k in blobs && blobs[k] == blobs0[k])
  }

  lemma IndexedRefl(b: Backend, ci: Id, trees: map<Id, TreeRecord>, blobs: map<Id, BlobRecord>)
    ensures Indexed(b, ci, trees, blobs, trees, blobs)
  {
    assert trees.Keys - trees.Keys == {};
  }

  /** Two indexing phases compose when the second keeps what the first made. */
  lemma IndexedTrans(b: Backend, ci: Id,
                     t0: map<Id, TreeRecord>, b0: map<Id, BlobRecord>,
                     t1: map<Id, TreeRecord>, b1: map<Id, BlobRecord>,
                     t2: map<Id, TreeRecord>, b2: map<Id, BlobRecord>)
    requires Indexed(b, ci, t0, b0, t1, b1) && Indexed(b, ci, t1, b1, t2, b2)
    requires Kept(t1, b1, t2, b2, {})
    ensures Indexed(b, ci, t0, b0, t2, b2)
  {
    AllChildrenInGrow(b, t1.Keys - t0.Keys, t1.Keys, b1.Keys, t2.Keys, b2.Keys);
    assert t2.Keys - t0.Keys == (t1.Keys - t0.Keys) + (t2.Keys - t1.Keys);
  }

  lemma KeptTrans(t0: map<Id, TreeRecord>, b0: map<Id, BlobRecord>,
                  t1: map<Id, TreeRecord>, b1: map<Id, BlobRecord>,
                  t2: map<Id, TreeRecord>, b2: map<Id, BlobRecord>, except: set<Id>)
    requires Kept(t0, b0, t1, b1, except) && Kept(t1, b1, t2, b2, {})
    ensures Kept(t0, b0, t2, b2, except)
  {
  }

  /** Creating record `k` and then setting it: the other records stay. */
  lemma CreateThenSet(m0: map<Id, TreeRecord>, m1: map<Id, TreeRecord>, m2: map<Id, TreeRecord>, k: Id, r: TreeRecord)
    requires k !in m0 && m1 == m0[k := BareTree] && m2 == m1[k := r]
    ensures k in m2 && m2[k] == r
    ensures forall j :: j in m2 <==> j in m0 || j == k
    ensures forall j :: j in m0 ==> m2[j] == m0[j]
  {
  }

  /** Indexing one new subtree `o` of backend tree `t`, reached from state
      (`t1`, `b1`) through `mid` (the new record with its context), is an indexing
      phase from (`t1`, `b1`), and it keeps the records of `t1`. */
  lemma SubtreeIndexed(b: Backend, ci: Id, t: Id, o: Entry,
                    t1: map<Id, TreeRecord>, b1: map<Id, BlobRecord>, mid: map<Id, TreeRecord>,
                    t2: map<Id, TreeRecord>, b2: map<Id, BlobRecord>)
    requires t in b.trees && o in b.trees[t] && o.kind == TreeKind && o.id in b.trees
    requires o.id !in t1 && o.id in mid && (forall k :: k in mid <==> k in t1 || k == o.id) && (forall k :: k in t1 ==> mid[k] == t1[k])
    requires mid[o.id] == TreeRecord(map[], Some(TreeContext(t, o.name)), Some(ci))
    requires TreeRefreshed(b, ci, o.id, mid, b1, t2, b2)
    ensures Indexed(b, ci, t1, b1, t2, b2)
  {
    assert o == Entry(o.name, o.id, TreeKind);
    assert FreshTree(b, ci, o.id, t2[o.id]);
    assert t2.Keys - t1.Keys == {o.id} + (t2.Keys - mid.Keys);
  }

  lemma SubtreeKept(b: Backend, ci: Id, t: Id, o: Entry,
                    t1: map<Id, TreeRecord>, b1: map<Id, BlobRecord>, mid: map<Id, TreeRecord>,
                    t2: map<Id, TreeRecord>, b2: map<Id, BlobRecord>)
    requires t in b.trees && o in b.trees[t] && o.kind == TreeKind && o.id in b.trees
    requires o.id !in t1 && o.id in mid && (forall k :: k in mid <==> k in t1 || k == o.id) && (forall k :: k in t1 ==> mid[k] == t1[k])
    requires mid[o.id] == TreeRecord(map[], Some(TreeContext(t, o.name)), Some(ci))
    requires TreeRefreshed(b, ci, o.id, mid, b1, t2, b2)
    ensures Kept(t1, b1, t2, b2, {})
  {
  }

  /** The same, continuing a phase that started at (`t0`, `b0`); the store comes no
      further from the backend. */
  lemma SubtreeStep(b: Backend, ci: Id, t: Id, o: Entry,
                    t0: map<Id, TreeRecord>, b0: map<Id, BlobRecord>,
                    t1: map<Id, TreeRecord>, b1: map<Id, BlobRecord>, mid: map<Id, TreeRecord>,
                    t2: map<Id, TreeRecord>, b2: map<Id, BlobRecord>)
    requires Indexed(b, ci, t0, b0, t1, b1) && Kept(t0, b0, t1, b1, {})
    requires t in b.trees && o in b.trees[t] && o.kind == TreeKind && o.id in b.trees
    requires o.id !in t1 && o.id in mid && (forall k :: k in mid <==> k in t1 || k == o.id) && (forall k :: k in t1 ==> mid[k] == t1[k])
    requires mid[o.id] == TreeRecord(map[], Some(TreeContext(t, o.name)), Some(ci))
    requires TreeRefreshed(b, ci, o.id, mid, b1, t2, b2)
    ensures Indexed(b, ci, t0, b0, t2, b2) && Kept(t0, b0, t2, b2, {})
    ensures t1.Keys <= t2.Keys && |b.trees.Keys - t2.Keys| <= |b.trees.Keys - t1.Keys|
  {
    SubtreeIndexed(b, ci, t, o, t1, b1, mid, t2, b2);
    SubtreeKept(b, ci, t, o, t1, b1, mid, t2, b2);
    IndexedTrans(b, ci, t0, b0, t1, b1, t2, b2);
    KeptTrans(t0, b0, t1, b1, t2, b2, {});
    SubsetCard(b.trees.Keys - t2.Keys, b.trees.Keys - t1.Keys);
  }

  /** What indexing tree `t` achieves from (`trees0`, `blobs0`): an indexing phase
      that keeps every other record, records `t`'s entries, and stores all of `t`'s
      children. */
  ghost predicate TreeRefreshed(b: Backend, ci: Id, t: Id,
                                trees0: map<Id, TreeRecord>, blobs0: map<Id, BlobRecord>,
                                trees: map<Id, TreeRecord>, blobs: map<Id, BlobRecord>) {
    && Indexed(b, ci, trees0, blobs0, trees, blobs)
    && Kept(trees0, blobs0, trees, blobs, {t})
    && t in b.trees && t in trees0 && t in trees && trees[t] == trees0[t].(objectIds := EntryMap(b.trees[t]))
    && ChildrenIn(b, t, trees.Keys, blobs.Keys)
  }

  /** `_refresh_tree(tree, obj)` for backend tree `t`, whose record exists: records
      `t`'s entries, then creates and indexes each subtree seen for the first time,
      then creates each blob seen for the first time. Tree and blob records reached
      here carry `ci` as their last commit. */
  method RefreshTree(b: Backend, s: Store, t: Id, ci: Id)
    requires b.TreesClosed() && t in b.trees && t in s.trees
    modifies s
    ensures s.commits == old(s.commits)
    ensures TreeRefreshed(b, ci, t, old(s.trees), old(s.blobs), s.trees, s.blobs)
    decreases |b.trees.Keys - s.trees.Keys|, 2
  {
    s.trees := s.trees[t := s.trees[t].(objectIds := EntryMap(b.trees[t]))];
    ghost var trees1, blobs1 := s.trees, s.blobs;
    IndexedRefl(b, ci, s.trees, s.blobs);
    assert s.trees.Keys == old(s.trees).Keys;
    RefreshSubtrees(b, s, t, OfKind(b.trees[t], TreeKind), ci);
    ghost var trees2, blobs2 := s.trees, s.blobs;
    RefreshBlobs(b, s, t, OfKind(b.trees[t], BlobKind), ci);
    IndexedTrans(b, ci, trees1, blobs1, trees2, blobs2, s.trees, s.blobs);
    assert s.trees.Keys - old(s.trees).Keys == s.trees.Keys - trees1.Keys;
  }

  /** The `obj.trees` loop of `_refresh_tree`. */
  method RefreshSubtrees(b: Backend, s: Store, t: Id, subtrees: seq<Entry>, ci: Id)
    requires b.TreesClosed() && t in b.trees && t in s.trees
    requires forall e :: e in subtrees ==> e in b.trees[t] && e.kind == TreeKind
    modifies s
    ensures s.commits == old(s.commits)
    ensures Indexed(b, ci, old(s.trees), old(s.blobs), s.trees, s.blobs)
    ensures Kept(old(s.trees), old(s.blobs), s.trees, s.blobs, {})
    ensures forall e :: e in subtrees ==> e.id in s.trees
    decreases |b.trees.Keys - s.trees.Keys|, 1
  {
    IndexedRefl(b, ci, s.trees, s.blobs);
    var i := 0;
    while i < |subtrees|
      invariant 0 <= i <= |subtrees|
      invariant s.commits == old(s.commits)
      invariant Indexed(b, ci, old(s.trees), old(s.blobs), s.trees, s.blobs)
      invariant Kept(old(s.trees), old(s.blobs), s.trees, s.blobs, {})
      invariant |b.trees.Keys - s.trees.Keys| <= |b.trees.Keys - old(s.trees).Keys|
      invariant EntryIds(subtrees[..i]) <= s.trees.Keys
    {
      IndexSubtree(b, s, t, subtrees[i], ci, old(s.trees), old(s.blobs));
      EntryIdsPrefix(subtrees, i);
      i := i + 1;
    }
    assert subtrees[..i] == subtrees;
    EntryIdsHas(subtrees);
  }

  /** One iteration of the `obj.trees` loop: upsert subtree `o`; when new, give it
      its context and last commit and index it. The ghost parameters carry the
      state at the start of the loop. */
  method IndexSubtree(b: Backend, s: Store, t: Id, o: Entry, ci: Id,
                      ghost t0: map<Id, TreeRecord>, ghost b0: map<Id, BlobRecord>)
    requires b.TreesClosed() && t in b.trees && o in b.trees[t] && o.kind == TreeKind
    requires Indexed(b, ci, t0, b0, s.trees, s.blobs) && Kept(t0, b0, s.trees, s.blobs, {})
    modifies s
    ensures s.commits == old(s.commits)
    ensures Indexed(b, ci, t0, b0, s.trees, s.blobs) && Kept(t0, b0, s.trees, s.blobs, {})
    ensures |b.trees.Keys - s.trees.Keys| <= |b.trees.Keys - old(s.trees).Keys|
    ensures old(s.trees).Keys <= s.trees.Keys && o.id in s.trees
    decreases |b.trees.Keys - s.trees.Keys|, 0
  {
    ghost var trees0, blobs0 := s.trees, s.blobs;
    var rec, isnew := s.UpsertTree(o.id);
    if isnew {
      s.trees := s.trees[o.id := rec.(context := Some(TreeContext(t, o.name)), lastCommit := Some(ci))];
      ghost var mid := s.trees;
      assert s.blobs == blobs0;
      assert o.id in b.trees && o.id !in trees0;
      CreateThenSet(trees0, trees0[o.id := BareTree], mid, o.id, TreeRecord(map[], Some(TreeContext(t, o.name)), Some(ci)));
      ShrinkAfterCreate(b.trees.Keys, trees0.Keys, s.trees.Keys, o.id);
      RefreshTree(b, s, o.id, ci);
      SubtreeStep(b, ci, t, o, t0, b0, trees0, blobs0, mid, s.trees, s.blobs);
    }
  }

  /** The `obj.blobs` loop of `_refresh_tree`. */
  method RefreshBlobs(b: Backend, s: Store, t: Id, blobs: seq<Entry>, ci: Id)
    requires t in b.trees
    requires forall e :: e in blobs ==> e in b.trees[t] && e.kind == BlobKind
    modifies s
    ensures s.commits == old(s.commits) && s.trees == old(s.trees)
    ensures Indexed(b, ci, old(s.trees), old(s.blobs), s.trees, s.blobs)
    ensures Kept(old(s.trees), old(s.blobs), s.trees, s.blobs, {})
    ensures forall e :: e in blobs ==> e.id in s.blobs
  {
    var i := 0;
    while i < |blobs|
      invariant 0 <= i <= |blobs|
      invariant s.commits == old(s.commits) && s.trees == old(s.trees)
      invariant old(s.blobs).Keys <= s.blobs.Keys
      invariant forall k :: k in s.blobs && k !in old(s.blobs) ==> FreshBlob(b, ci, k, s.blobs[k])
      invariant Kept(old(s.trees), old(s.blobs), s.trees, s.blobs, {})
      invariant forall j :: 0 <= j < i ==> blobs[j].id in s.blobs
    {
      var o := blobs[i];
      assert o in b.trees[t] && o == Entry(o.name, o.id, BlobKind);
      var rec, isnew := s.UpsertBlob(o.id);
      if isnew {
        s.blobs := s.blobs[o.id := BlobRecord(Some(TreeContext(t, o.name)), Some(ci))];
      }
      i := i + 1;
    }
    forall e | e in blobs ensures e.id in s.blobs {
      var j :| 0 <= j < |blobs| && blobs[j] == e;
    }
    assert s.trees.Keys - old(s.trees).Keys == {};
  }

  /** Every stored tree that the backend knows has all of its children stored. */
  ghost predicate Closed(b: Backend, trees: map<Id, TreeRecord>, blobs: map<Id, BlobRecord>) {
    AllChildrenIn(b, trees.Keys, trees.Keys, blobs.Keys)
  }

  /** Indexing a new commit tree `root` from (`t0`, `b0`) through `mid` (the root's
      record with its context): the other new trees are fresh and complete, and a
      closed store stays closed. */
  lemma RootStep(b: Backend, ci: Id, root: Id,
                 t0: map<Id, TreeRecord>, b0: map<Id, BlobRecord>, mid: map<Id, TreeRecord>,
                 t2: map<Id, TreeRecord>, b2: map<Id, BlobRecord>)
    requires root !in t0 && root in mid && (forall k :: k in mid <==> k in t0 || k == root)
    requires forall k :: k in t0 ==> mid[k] == t0[k]
    requires TreeRefreshed(b, ci, root, mid, b0, t2, b2)
    ensures Kept(t0, b0, t2, b2, {})
    ensures forall k :: k in t2 && k !in t0 && k != root ==> FreshTree(b, ci, k, t2[k]) && ChildrenIn(b, k, t2.Keys, b2.Keys)
    ensures Closed(b, t0, b0) ==> Closed(b, t2, b2)
  {
    forall k | k in t2 && k !in t0 && k != root
      ensures FreshTree(b, ci, k, t2[k]) && ChildrenIn(b, k, t2.Keys, b2.Keys)
    {
      assert k in t2.Keys - mid.Keys;
      assert FreshTree(b, ci, k, t2[k]);
    }
    if Closed(b, t0, b0) {
      forall k | k in t2.Keys && k in b.trees ensures ChildrenIn(b, k, t2.Keys, b2.Keys) {
        if k in t0 {
          assert ChildrenIn(b, k, t0.Keys, b0.Keys);
        } else if k != root {
          assert k in t2.Keys - mid.Keys;
        }
      }
    }
  }

  /** The tree half of `refresh_commit`: upsert the commit's tree `root`; when it is
      new, its context is the commit, its last commit is `ci`, and it is indexed. */
  method IndexCommitTree(b: Backend, s: Store, root: Id, ci: Id)
    requires b.TreesClosed() && root in b.trees
    modifies s
    ensures s.commits == old(s.commits) && root in s.trees
    ensures Kept(old(s.trees), old(s.blobs), s.trees, s.blobs, {})
    ensures root in old(s.trees) ==> s.trees == old(s.trees) && s.blobs == old(s.blobs)
    ensures root !in old(s.trees) ==>
              s.trees[root] == TreeRecord(EntryMap(b.trees[root]), Some(CommitContext(ci)), Some(ci))
    ensures root !in old(s.trees) ==> ChildrenIn(b, root, s.trees.Keys, s.blobs.Keys)
    ensures forall k :: k in s.trees && k !in old(s.trees) && k != root ==>
              FreshTree(b, ci, k, s.trees[k]) && ChildrenIn(b, k, s.trees.Keys, s.blobs.Keys)
    ensures forall k :: k in s.blobs && k !in old(s.blobs) ==> FreshBlob(b, ci, k, s.blobs[k])
    ensures Closed(b, old(s.trees), old(s.blobs)) ==> Closed(b, s.trees, s.blobs)
  {
    ghost var trees0, blobs0 := s.trees, s.blobs;
    var rec, isnew := s.UpsertTree(root);
    if isnew {
      s.trees := s.trees[root := rec.(context := Some(CommitContext(ci)), lastCommit := Some(ci))];
      ghost var mid := s.trees;
      assert s.blobs == blobs0;
      CreateThenSet(trees0, trees0[root := BareTree], mid, root, TreeRecord(map[], Some(CommitContext(ci)), Some(ci)));
      RefreshTree(b, s, root, ci);
      RootStep(b, ci, root, trees0, blobs0, mid, s.trees, s.blobs);
    }
  }
}

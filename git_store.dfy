/** The content-addressed store of commit, tree and blob records, keyed by object id,
    whose upserts are get-or-create and report whether the record is new. */
module GitStore {
  import opened Wrappers
  import opened GitObjects

  /** The object that first materialised a tree or blob: a commit, or a parent tree
      together with the entry name. */
  datatype Context = CommitContext(commit: Id) | TreeContext(tree: Id, name: string)

  /** A tree record: entry id to entry name (`object_ids`), context, last commit. */
  datatype TreeRecord = TreeRecord(objectIds: map<Id, string>, context: Option<Context>, lastCommit: Option<Id>)

  /** A blob record holds no content, only its context and last commit. */
  datatype BlobRecord = BlobRecord(context: Option<Context>, lastCommit: Option<Id>)

  /** A signature as stored: the timestamp with the timezone offset subtracted. */
  datatype Signature = Signature(name: string, email: string, date: int)

  datatype CommitRecord = CommitRecord(
    treeId: Option<Id>,
    committed: Option<Signature>, authored: Option<Signature>,
    message: string,
    parentIds: seq<Id>,
    repositories: set<string>)

  const BareTree := TreeRecord(map[], None, None)
  const BareBlob := BlobRecord(None, None)
  const BareCommit := CommitRecord(None, None, None, "", [], {})

  /** `dict((o.hexsha, o.name) for o in entries)`: every entry id, mapped to the name
      of the last entry carrying that id. */
  function EntryMap(entries: seq<Entry>): map<Id, string> {
    if entries == [] then map[]
    else
      var rest := EntryMap(entries[1..]);
      if entries[0].id in rest then rest else rest[entries[0].id := entries[0].name]
  }

  /** The recorded entry ids are exactly the tree's, and each is named by its last entry. */
  lemma {:induction false} EntryMapLastWins(entries: seq<Entry>)
    ensures forall k :: k in EntryMap(entries) <==> k in EntryIds(entries)
    ensures forall i :: 0 <= i < |entries| && entries[i].id !in EntryIds(entries[i + 1..]) ==>
              EntryMap(entries)[entries[i].id] == entries[i].name
  {
    if entries != [] {
      var tail := entries[1..];
      EntryMapLastWins(tail);
      forall i | 0 < i < |entries| ensures entries[i + 1..] == tail[i..] && entries[i] == tail[i - 1] {}
    }
  }

  /** The ids of a tree's entries. */
  function EntryIds(entries: seq<Entry>): (ids: set<Id>)
    ensures forall i :: 0 <= i < |entries| ==> entries[i].id in ids
  {
    if entries == [] then {} else {entries[0].id} + EntryIds(entries[1..])
  }

  /** `tree.trees` or `tree.blobs`: the entries of one kind, in order. */
  function OfKind(entries: seq<Entry>, kind: EntryKind): (r: seq<Entry>)
    ensures forall e :: e in r <==> e in entries && e.kind == kind
  {
    if entries == [] then []
    else (if entries[0].kind == kind then [entries[0]] else []) + OfKind(entries[1..], kind)
  }

  /** A submodule entry is recorded in the tree's `object_ids`, but is neither one
      of its `trees` nor one of its `blobs`, so the refresh never descends into it. */
  lemma SubmoduleRecordedOnly(entries: seq<Entry>, i: int)
    requires 0 <= i < |entries| && entries[i].kind == SubmoduleKind
    ensures entries[i].id in EntryMap(entries)
    ensures entries[i] !in OfKind(entries, TreeKind) && entries[i] !in OfKind(entries, BlobKind)
  {
    EntryMapLastWins(entries);
  }

  /** Every child of backend tree `t` has a record among the ids `trees` / `blobs`. */
  ghost predicate ChildrenIn(b: Backend, t: Id, trees: set<Id>, blobs: set<Id>) {
    && t in b.trees
    && (forall e :: e in b.trees[t] && e.kind == TreeKind ==> e.id in trees)
    && (forall e :: e in b.trees[t] && e.kind == BlobKind ==> e.id in blobs)
  }

  /** Every backend tree among `ids` has all of its children stored.
      (Instantiated only where `ChildrenIn` of a given tree is asked for, so that the
      recursion through the tree graph is not unfolded without end.) */
  ghost predicate AllChildrenIn(b: Backend, ids: set<Id>, trees: set<Id>, blobs: set<Id>) {
    forall t {:trigger ChildrenIn(b, t, trees, blobs)} :: t in ids && t in b.trees ==> ChildrenIn(b, t, trees, blobs)
  }

  lemma AllChildrenInGrow(b: Backend, ids: set<Id>, trees: set<Id>, blobs: set<Id>, trees': set<Id>, blobs': set<Id>)
    requires AllChildrenIn(b, ids, trees, blobs) && trees <= trees' && blobs <= blobs'
    ensures AllChildrenIn(b, ids, trees', blobs')
  {
    forall t | t in ids && t in b.trees ensures ChildrenIn(b, t, trees', blobs') {
      assert ChildrenIn(b, t, trees, blobs);
    }
  }

  /** `ctx` names a backend tree holding entry `k` of kind `kind`. */
  ghost predicate Materialises(b: Backend, ctx: Context, k: Id, kind: EntryKind) {
    ctx.TreeContext? && ctx.tree in b.trees && Entry(ctx.name, k, kind) in b.trees[ctx.tree]
  }

  /** A tree record created while indexing commit `ci`: its entries recorded, its
      last commit `ci`, and its context the parent tree that reached it. */
  ghost predicate FreshTree(b: Backend, ci: Id, k: Id, r: TreeRecord) {
    && k in b.trees
    && r.objectIds == EntryMap(b.trees[k])
    && r.lastCommit == Some(ci)
    && r.context.Some? && Materialises(b, r.context.value, k, TreeKind)
  }

  ghost predicate FreshBlob(b: Backend, ci: Id, k: Id, r: BlobRecord) {
    r.lastCommit == Some(ci) && r.context.Some? && Materialises(b, r.context.value, k, BlobKind)
  }

  class Store {
    var commits: map<Id, CommitRecord>
    var trees: map<Id, TreeRecord>
    var blobs: map<Id, BlobRecord>

    constructor ()
      ensures commits == map[] && trees == map[] && blobs == map[]
    {
      commits, trees, blobs := map[], map[], map[];
    }

    /** `Tree.upsert('git', id)`: the stored record, or a new bare one. */
    method UpsertTree(id: Id) returns (rec: TreeRecord, isnew: bool)
      modifies this
      ensures isnew <==> id !in old(trees)
      ensures trees == if isnew then old(trees)[id := BareTree] else old(trees)
      ensures rec == trees[id]
      ensures commits == old(commits) && blobs == old(blobs)
    {
      isnew := id !in trees;
      if isnew {
        trees := trees[id := BareTree];
      }
      rec := trees[id];
    }

    /** `Blob.upsert('git', id)`. */
    method UpsertBlob(id: Id) returns (rec: BlobRecord, isnew: bool)
      modifies this
      ensures isnew <==> id !in old(blobs)
      ensures blobs == if isnew then old(blobs)[id := BareBlob] else old(blobs)
      ensures rec == blobs[id]
      ensures commits == old(commits) && trees == old(trees)
    {
      isnew := id !in blobs;
      if isnew {
        blobs := blobs[id := BareBlob];
      }
      rec := blobs[id];
    }

    /** `Commit.upsert(id)`. */
    method UpsertCommit(id: Id) returns (rec: CommitRecord, isnew: bool)
      modifies this
      ensures isnew <==> id !in old(commits)
      ensures commits == if isnew then old(commits)[id := BareCommit] else old(commits)
      ensures rec == commits[id]
      ensures trees == old(trees) && blobs == old(blobs)
    {
      isnew := id !in commits;
      if isnew {
        commits := commits[id := BareCommit];
      }
      rec := commits[id];
    }
  }

  /** Two upserts of one id: the second finds the record the first made or found,
      reports it as not new and changes nothing. */
  method UpsertTreeTwice(s: Store, id: Id) returns (r0: TreeRecord, new0: bool, r1: TreeRecord, new1: bool)
    modifies s
    ensures new0 <==> id !in old(s.trees)
    ensures !new1 && r1 == r0
    ensures s.trees == old(s.trees)[id := r0] && s.blobs == old(s.blobs) && s.commits == old(s.commits)
  {
    r0, new0 := s.UpsertTree(id);
    r1, new1 := s.UpsertTree(id);
  }
}

/** The git backend as the indexer sees it: an immutable snapshot of the commit,
    tree and reference objects that GitPython would hand out. */
module GitObjects {
  import opened Wrappers

  /** A 40-character hex object id (`hexsha`). */
  type Id = string

  datatype Actor = Actor(name: string, email: string)

  /** A commit object: ordered parents (merge-parent order), its tree, the two
      signatures with raw timestamps and timezone offsets, and the message. */
  datatype CommitObject = CommitObject(
    parents: seq<Id>,
    tree: Id,
    committer: Actor, committedDate: int, committerTzOffset: int,
    author: Actor, authoredDate: int, authorTzOffset: int,
    message: Option<string>)

  /** What a tree entry names: a subtree, a blob, or a submodule commit
      (a gitlink, mode 160000), which iterating the tree yields but neither
      `trees` nor `blobs` does. */
  datatype EntryKind = TreeKind | BlobKind | SubmoduleKind

  /** One entry of a tree object, in the tree's own order. */
  datatype Entry = Entry(name: string, id: Id, kind: EntryKind)

  /** A head, branch or tag: its name, the commit it points to and `is_valid()`. */
  datatype Ref = Ref(name: string, target: Id, valid: bool)

  datatype Backend = Backend(
    commits: map<Id, CommitObject>,
    trees: map<Id, seq<Entry>>,
    heads: seq<Ref>, branches: seq<Ref>, tags: seq<Ref>)
  {
    /** What holds of every real repository: parents, commit trees and sub-trees
        resolve to objects of the repository. */
    ghost predicate Valid() {
      && ParentsClosed()
      && (forall c :: c in commits ==> commits[c].tree in trees)
      && TreesClosed()
    }

    /** Every parent of a commit is a commit of the backend. */
    ghost predicate ParentsClosed() {
      forall c, i :: c in commits && 0 <= i < |commits[c].parents| ==> commits[c].parents[i] in commits
    }

    /** Every subtree entry of a tree names a tree of the backend. */
    ghost predicate TreesClosed() {
      forall t, e :: t in trees && e in trees[t] && e.kind == TreeKind ==> e.id in trees
    }
  }

  /** A freshly created, empty backend (`git.Repo.init`). */
  function EmptyBackend(): (b: Backend)
    ensures b.Valid() && b.commits == map[] && b.trees == map[]
  {
    Backend(map[], map[], [], [], [])
  }

  /** Adding one element to a set of visited ids shrinks the part of `universe` still unvisited. */
  lemma VisitShrinks<T>(universe: set<T>, visited: set<T>, x: T)
    requires x in universe && x !in visited
    ensures |universe - (visited + {x})| < |universe - visited|
  {
    assert universe - visited == (universe - (visited + {x})) + {x};
  }
}

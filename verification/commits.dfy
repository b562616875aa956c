/** Commit records: message, timestamp, parent list, id and file tree. */
module Commits {
  import opened Wrappers
  import opened Objects

  /** A commit. `parents` holds the constructor's parent argument first; the
      root commit's only entry is the null parent (None). */
  datatype Commit = Commit(message: string, timestamp: string, parents: seq<Option<Id>>, id: Id, blobs: Tree)

  /** The timestamp every root commit carries. */
  const EpochStamp: string := "Thu Jan 1 00:00:00 1970 -0800"

  /** The first parent, or None for the root (and for an empty list). */
  function FirstParent(c: Commit): Option<Id> {
    if |c.parents| == 0 then None else c.parents[0]
  }

  /** The non-null parents, in order: the edges of the history graph. */
  function ParentIds(c: Commit): (r: seq<Id>)
    ensures forall q :: q in r <==> Some(q) in c.parents
  {
    ParentIdsOf(c.parents)
  }

  function ParentIdsOf(ps: seq<Option<Id>>): (r: seq<Id>)
    ensures forall q :: q in r <==> Some(q) in ps
  {
    if ps == [] then []
    else (match ps[0] case Some(p) => [p] case None => []) + ParentIdsOf(ps[1..])
  }

  /** The constructor's timestamp rule: a null first parent marks the root,
      which gets the fixed epoch stamp; any other commit takes the clock's
      reading (`setTimestamp`). */
  function StampFor(firstParent: Option<Id>, clock: string): (t: string)
    ensures firstParent.None? ==> t == EpochStamp
    ensures firstParent.Some? ==> t == clock
  {
    if firstParent.None? then EpochStamp else clock
  }

  /** The constructor as written: the id digests the record while its file
      references are still unset, and the tree is attached afterwards. */
  function Construct(hash: Hasher, clock: string, message: string, blobs: Tree, parent: Option<Id>): (c: Commit)
    ensures c.parents == [parent] && FirstParent(c) == parent
    ensures c.message == message && c.blobs == blobs
    ensures parent.None? ==> c.timestamp == EpochStamp
    ensures parent.Some? ==> c.timestamp == clock
  {
    var stamp := StampFor(parent, clock);
    Commit(message, stamp, [parent], hash(CommitFields(message, stamp, [parent], None)), blobs)
  }

  /** Two commits built by the constructor from the same message, clock and
      parent get the same id whatever their trees. */
  lemma ConstructIdIgnoresTree(hash: Hasher, clock: string, message: string, t1: Tree, t2: Tree, parent: Option<Id>)
    ensures Construct(hash, clock, message, t1, parent).id == Construct(hash, clock, message, t2, parent).id
  {
  }

  /** The record with the id the `commit` command's documentation asks for: a digest of message, time,
      parents and file references together. `parents` may hold a second
      parent, for a merge. */
  function Make(hash: Hasher, clock: string, message: string, blobs: Tree, parents: seq<Option<Id>>): (c: Commit)
    ensures c.parents == parents && c.message == message && c.blobs == blobs
    ensures |parents| > 0 && parents[0].None? ==> c.timestamp == EpochStamp
    ensures |parents| > 0 && parents[0].Some? ==> c.timestamp == clock
    ensures c.id == hash(CommitFields(c.message, c.timestamp, c.parents, Some(c.blobs)))
  {
    var stamp := StampFor(if |parents| == 0 then None else parents[0], clock);
    Commit(message, stamp, parents, hash(CommitFields(message, stamp, parents, Some(blobs))), blobs)
  }

  /** With a collision-free digest, records that differ in their trees get
      different ids, and equal ids mean equal records. */
  lemma MakeIdCoversTree(hash: Hasher, clock: string, message: string, t1: Tree, t2: Tree, parents: seq<Option<Id>>)
    requires Injective(hash)
    ensures Make(hash, clock, message, t1, parents).id == Make(hash, clock, message, t2, parents).id <==> t1 == t2
  {
  }

  /** Identity is a function of the fields: every root commit with the same
      message and tree has the same id, whatever the clock said. */
  lemma RootIdIgnoresClock(hash: Hasher, clock1: string, clock2: string, message: string, blobs: Tree)
    ensures Make(hash, clock1, message, blobs, [None]) == Make(hash, clock2, message, blobs, [None])
  {
  }
}

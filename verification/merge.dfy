/** The `merge` command: preconditions, split-point search, the two
    short-circuits, and the merge commit built from the three-way rules. */
module Merge {
  import opened Wrappers
  import opened Objects
  import opened Commits
  import opened Staging
  import opened History
  import opened ThreeWay
  import opened Repository

  /** How a merge that did not stop on an error ended. */
  datatype MergeOutcome =
    | FastForwarded          // "Current branch fast-forwarded."
    | GivenIsAncestor        // "Given branch is an ancestor of the current branch."
    | Merged(conflict: bool) // a merge commit; `conflict` is "Encountered a merge conflict."

  datatype MergeReport = MergeReport(repo: Repo, outcome: MergeOutcome)

  /** The log message of a merge commit. */
  function MergeMessage(given: string, current: string): (m: string)
    ensures |m| == |given| + |current| + 14
    ensures m[..7] == "Merged " && m[7..7 + |given|] == given
    ensures m[7 + |given|..13 + |given|] == " into " && m[13 + |given|..|m| - 1] == current
    ensures m[|m| - 1] == '.'
  {
    "Merged " + given + " into " + current + "."
  }

  /** The checks made before anything else, in the source's order. */
  function MergeBlocker(r: Repo, given: string): (e: Option<Error>)
    ensures e.None? <==> NothingStaged(r.stage) && given in r.branches && given != r.current
    ensures !NothingStaged(r.stage) ==> e == Some(UncommittedChanges)
    ensures NothingStaged(r.stage) && given !in r.branches ==> e == Some(BranchDoesNotExist)
    ensures NothingStaged(r.stage) && given in r.branches && given == r.current ==> e == Some(SelfMerge)
  {
    if !NothingStaged(r.stage) then Some(UncommittedChanges)
    else if given !in r.branches then Some(BranchDoesNotExist)
    else if given == r.current then Some(SelfMerge)
    else None
  }

  /** The digests of the files of `files` named in `done`. */
  ghost function Digests(hash: Hasher, files: map<Path, Bytes>, done: set<Path>): set<Id> {
    set p | p in done && p in files :: BlobId(hash, files[p])
  }

  /** The state of the blob store after writing the files named in `done`. */
  ghost predicate Written(blobs: map<Id, Bytes>, hash: Hasher, files: map<Path, Bytes>, done: set<Path>, out: map<Id, Bytes>) {
    && done <= files.Keys
    && out.Keys == blobs.Keys + Digests(hash, files, done)
    && (forall p | p in done :: BlobId(hash, files[p]) in out && BlobId(hash, out[BlobId(hash, files[p])]) == BlobId(hash, files[p]))
    && (forall id | id in out :: (id in blobs && out[id] == blobs[id]) || BlobId(hash, out[id]) == id)
    && (forall id | id in blobs && id !in Digests(hash, files, done) :: out[id] == blobs[id])
  }

  lemma DigestsStep(hash: Hasher, files: map<Path, Bytes>, done: set<Path>, p: Path)
    requires p in files
    ensures Digests(hash, files, done + {p}) == Digests(hash, files, done) + {BlobId(hash, files[p])}
  {
  }

  /** Writing one more file keeps the store in the written state. */
  lemma WrittenStep(blobs: map<Id, Bytes>, hash: Hasher, files: map<Path, Bytes>, done: set<Path>, out: map<Id, Bytes>, p: Path)
    requires Written(blobs, hash, files, done, out) && p in files.Keys - done
    ensures Written(blobs, hash, files, done + {p}, out[BlobId(hash, files[p]) := files[p]])
  {
    DigestsStep(hash, files, done, p);
  }

  /** Stores every file of `files` in the blob store under its digest. Ids
      not written keep their content, and a store whose entries hash to
      their ids still does afterwards. */
  method WriteBlobs(blobs: map<Id, Bytes>, hash: Hasher, files: map<Path, Bytes>) returns (out: map<Id, Bytes>)
    ensures out.Keys == blobs.Keys + Digests(hash, files, files.Keys)
    ensures forall p | p in files :: BlobId(hash, files[p]) in out && BlobId(hash, out[BlobId(hash, files[p])]) == BlobId(hash, files[p])
    ensures forall id | id in blobs && id !in Digests(hash, files, files.Keys) :: out[id] == blobs[id]
    ensures ContentAddressed(blobs, hash) ==> ContentAddressed(out, hash)
  {
    out := blobs;
    var done: set<Path> := {};
    while done != files.Keys
      invariant Written(blobs, hash, files, done, out)
      decreases |files.Keys - done|
    {
      var p :| p in files.Keys - done;
      WrittenStep(blobs, hash, files, done, out, p);
      out := out[BlobId(hash, files[p]) := files[p]];
      done := done + {p};
    }
  }

  /** With a collision-free digest, each written file can be read back. */
  lemma WrittenBlobsReadBack(blobs: map<Id, Bytes>, hash: Hasher, files: map<Path, Bytes>, out: map<Id, Bytes>, p: Path)
    requires Injective(hash) && p in files
    requires BlobId(hash, files[p]) in out && BlobId(hash, out[BlobId(hash, files[p])]) == BlobId(hash, files[p])
    ensures out[BlobId(hash, files[p])] == files[p]
  {
    var id := BlobId(hash, files[p]);
    assert hash(BlobContent(out[id])) == hash(BlobContent(files[p]));
  }

  /** The facts about the two tips that decide how a merge ends: a split
      point exists exactly when a common ancestor does, in particular when
      either tip is an ancestor of the other, and it is HEAD only when HEAD
      is an ancestor of the given tip. */
  lemma MergeAncestry(store: Store, head: Id, g: Id)
    ensures SplitPoint(store, AllParents, head, g).None? <==> !exists a :: CommonAncestor(store, AllParents, a, head, g)
    ensures head in store && IsAncestor(store, AllParents, head, g) ==> SplitPoint(store, AllParents, head, g).Some?
    ensures g in store && IsAncestor(store, AllParents, g, head) ==> SplitPoint(store, AllParents, head, g).Some?
    ensures SplitPoint(store, AllParents, head, g).Some? ==>
              var split := SplitPoint(store, AllParents, head, g).value;
              && CommonAncestor(store, AllParents, split, head, g)
              && (split == head ==> head in store && IsAncestor(store, AllParents, head, g))
  {
    SplitPointCommon(store, AllParents, head, g);
    AncestorRefl(store, AllParents, head);
    AncestorRefl(store, AllParents, g);
    if head in store && IsAncestor(store, AllParents, head, g) {
      assert CommonAncestor(store, AllParents, head, head, g);
    }
    if g in store && IsAncestor(store, AllParents, g, head) {
      assert CommonAncestor(store, AllParents, g, head, g);
    }
  }

  /** The merge commit proper: the three trees are reconciled, the conflict
      files stored, the result staged against HEAD and committed with HEAD
      and the given tip as parents. */
  method CommitMerge(r: Repo, hash: Hasher, clock: string, given: string, split: Id) returns (n: Repo, conflict: bool)
    requires given in r.branches
    ensures var m := MergeTrees(hash, r.blobs, TreeOf(r.commits, split), HeadTree(r), TreeOf(r.commits, r.branches[given]));
            && n.head in n.commits
            && n.commits[n.head].blobs == m.tree
            && (conflict <==> m.conflicts != map[])
            && (forall p | p in m.conflicts :: BlobId(hash, m.conflicts[p]) in n.blobs)
    ensures n.head in n.commits
    ensures n.commits == r.commits[n.head := n.commits[n.head]]
    ensures n.commits[n.head].parents == [Some(r.head), Some(r.branches[given])]
    ensures n.commits[n.head].message == MergeMessage(given, r.current)
    ensures n.commits[n.head].timestamp == clock
    ensures n.current == r.current && n.branches == r.branches[r.current := n.head]
    ensures NothingStaged(n.stage)
    ensures r.blobs.Keys <= n.blobs.Keys
    ensures Wf(r) ==> Wf(n)
    ensures ContentAddressed(r.blobs, hash) ==> ContentAddressed(n.blobs, hash)
  {
    var g := r.branches[given];
    var m := MergeTrees(hash, r.blobs, TreeOf(r.commits, split), HeadTree(r), TreeOf(r.commits, g));
    var blobs := WriteBlobs(r.blobs, hash, m.conflicts);
    var staged := r.(blobs := blobs, stage := StageFor(HeadTree(r), m.tree));
    SnapshotOfStageFor(HeadTree(r), m.tree);
    var committed := CommitStaged(staged, hash, clock, MergeMessage(given, r.current), Some(g));
    n := committed.value;
    conflict := m.conflicts != map[];
  }

  /** `merge [branch]`. Ancestry is followed over every parent link. When
      HEAD is an ancestor of the given tip the current branch is
      fast-forwarded to it; when the given tip is an ancestor of HEAD nothing
      changes. Otherwise the three trees (split point, HEAD, given tip) are
      reconciled by the per-file rules, conflicted files are stored, and the
      result is committed with HEAD and the given tip as parents. */
  method Merge(r: Repo, hash: Hasher, clock: string, given: string) returns (res: Result<MergeReport, Error>)
    ensures MergeBlocker(r, given).Some? ==> res == Err(MergeBlocker(r, given).value)
    ensures MergeBlocker(r, given).None? ==>
              (res == Err(NoSplitPoint) <==> !exists a :: CommonAncestor(r.commits, AllParents, a, r.head, r.branches[given]))
    ensures res.Err? ==> res.error in {UncommittedChanges, BranchDoesNotExist, SelfMerge, NoSplitPoint}
    ensures MergeBlocker(r, given).None? && SplitPoint(r.commits, AllParents, r.head, r.branches[given]).Some? ==> res.Ok?
    ensures MergeBlocker(r, given).None? && r.head in r.commits && IsAncestor(r.commits, AllParents, r.head, r.branches[given]) ==>
              var g := r.branches[given];
              res == Ok(MergeReport(r.(head := g, branches := r.branches[r.current := g]), FastForwarded))
    ensures MergeBlocker(r, given).None? && r.branches[given] in r.commits && IsAncestor(r.commits, AllParents, r.branches[given], r.head)
            && !(r.head in r.commits && IsAncestor(r.commits, AllParents, r.head, r.branches[given])) ==>
              res == Ok(MergeReport(r, GivenIsAncestor))
    ensures res.Ok? && res.value.outcome == FastForwarded ==>
              var g := r.branches[given];
              && IsAncestor(r.commits, AllParents, r.head, g)
              && res.value.repo == r.(head := g, branches := r.branches[r.current := g])
    ensures res.Ok? && res.value.outcome == GivenIsAncestor ==>
              && IsAncestor(r.commits, AllParents, r.branches[given], r.head)
              && res.value.repo == r
    ensures res.Ok? && res.value.outcome.Merged? ==>
              var g := r.branches[given];
              var n := res.value.repo;
              && n.head in n.commits
              && !(r.head in r.commits && IsAncestor(r.commits, AllParents, r.head, g))
              && !(g in r.commits && IsAncestor(r.commits, AllParents, g, r.head))
              && exists split ::
                   && SplitPoint(r.commits, AllParents, r.head, g) == Some(split) && split != r.head
                   && CommonAncestor(r.commits, AllParents, split, r.head, g)
                   && var m := MergeTrees(hash, r.blobs, TreeOf(r.commits, split), HeadTree(r), TreeOf(r.commits, g));
                   && n.commits[n.head].blobs == m.tree
                   && (res.value.outcome.conflict <==> m.conflicts != map[])
                   && (forall p | p in m.conflicts :: BlobId(hash, m.conflicts[p]) in n.blobs)
    ensures res.Ok? && res.value.outcome.Merged? ==>
              var n := res.value.repo;
              var g := r.branches[given];
              && n.head in n.commits
              && n.commits == r.commits[n.head := n.commits[n.head]]
              && n.commits[n.head].parents == [Some(r.head), Some(g)]
              && n.commits[n.head].message == MergeMessage(given, r.current)
              && n.commits[n.head].timestamp == clock
              && n.current == r.current && n.branches == r.branches[r.current := n.head]
              && NothingStaged(n.stage)
              && r.blobs.Keys <= n.blobs.Keys
    ensures res.Ok? && Wf(r) ==> Wf(res.value.repo)
    ensures res.Ok? && ContentAddressed(r.blobs, hash) ==> ContentAddressed(res.value.repo.blobs, hash)
  {
    match MergeBlocker(r, given) {
      case Some(e) => return Err(e);
      case None =>
    }
    var g := r.branches[given];
    MergeAncestry(r.commits, r.head, g);
    var sp := SplitPoint(r.commits, AllParents, r.head, g);
    if sp.None? {
      return Err(NoSplitPoint);
    }
    AncestorsExact(r.commits, AllParents, g);
    if r.head in Ancestors(r.commits, AllParents, g) {
      return Ok(MergeReport(r.(head := g, branches := r.branches[r.current := g]), FastForwarded));
    }
    AncestorsExact(r.commits, AllParents, r.head);
    if g in Ancestors(r.commits, AllParents, r.head) {
      return Ok(MergeReport(r, GivenIsAncestor));
    }
    var n, conflict := CommitMerge(r, hash, clock, given, sp.value);
    return Ok(MergeReport(n, Merged(conflict)));
  }
}

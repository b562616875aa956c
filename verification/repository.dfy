/** The repository: object stores, branch table, HEAD and staging area as
    one value, and the commands on it. Each command yields the new state or
    the error it prints and stops on, leaving the state as it was. */
module Repository {
  import opened Wrappers
  import opened Objects
  import opened Commits
  import opened Staging
  import opened History

  /** The messages on which a command stops. */
  datatype Error =
    | FileDoesNotExist        // "File does not exist."
    | NoChangesAdded          // "No changes added to the commit."
    | EmptyMessage            // "Please enter a commit message."
    | NoReasonToRemove        // "No reason to remove the file."
    | BranchExists            // "A branch with that name already exists."
    | BranchDoesNotExist      // "A branch with that name does not exist."
    | NoSuchBranch            // "No such branch exists."
    | CannotRemoveCurrent     // "Cannot remove the current branch."
    | AlreadyCurrentBranch    // "No need to checkout the current branch."
    | UntrackedFileInTheWay   // "There is an untracked file in the way; ..."
    | NoSuchCommit            // "No commit with that id exists."
    | FileNotInCommit         // "File does not exist in that commit."
    | NoCommitWithMessage     // "Found no commit with that message."
    | UncommittedChanges      // "You have uncommited changes."
    | SelfMerge               // "Cannot merge a branch with itself."
    | NoSplitPoint            // "There was an error finding the split point." (the source then fails)

  /** Everything under `.gitlet`: commits, blobs, branch files, the name of
      the current branch, the HEAD id and the staging area. */
  datatype Repo = Repo(
    commits: Store,
    blobs: map<Id, Bytes>,
    branches: map<string, Id>,
    current: string,
    head: Id,
    stage: StagingArea)

  /** The repository invariant: HEAD is a stored commit and is what the
      current branch points at, every branch points at a stored commit, and
      no path is staged both ways. */
  predicate Wf(r: Repo) {
    && r.head in r.commits
    && r.current in r.branches && r.branches[r.current] == r.head
    && (forall b | b in r.branches :: r.branches[b] in r.commits)
    && Disjoint(r.stage)
  }

  /** The file tree of a commit; a missing commit reads as no files. */
  function TreeOf(commits: Store, id: Id): Tree {
    if id in commits then commits[id].blobs else map[]
  }

  function HeadTree(r: Repo): Tree {
    TreeOf(r.commits, r.head)
  }

  /** Only the staging area and the blob store may differ. */
  predicate SameRefs(r: Repo, n: Repo) {
    n.commits == r.commits && n.branches == r.branches && n.current == r.current && n.head == r.head
  }

  /** The staging of every path other than `path` is untouched. */
  ghost predicate OthersStaged(s: StagingArea, t: StagingArea, path: Path) {
    && (forall q | q != path :: Get(t.tracked, q) == Get(s.tracked, q))
    && (forall q | q != path :: Get(t.untracked, q) == Get(s.untracked, q))
    && t.modified == s.modified
  }

  const InitialMessage: string := "initial commit"
  const DefaultBranch: string := "master"

  /** `init`: the root commit (no files, null parent, epoch timestamp) and
      a single branch `master` pointing at it. The commit constructor is
      given the clock, which a root commit ignores. */
  function Init(hash: Hasher, clock: string): (r: Repo)
    ensures Wf(r) && NothingStaged(r.stage) && r.blobs == map[]
    ensures r.branches.Keys == {DefaultBranch} && r.current == DefaultBranch
    ensures r.commits.Keys == {r.head}
    ensures r.commits[r.head].message == InitialMessage && r.commits[r.head].parents == [None]
    ensures r.commits[r.head].timestamp == EpochStamp && r.commits[r.head].blobs == map[]
  {
    var root := Make(hash, clock, InitialMessage, map[], [None]);
    Repo(map[root.id := root], map[], map[DefaultBranch := root.id], DefaultBranch, root.id, Fresh())
  }

  /** Every repository ever initialised is the same value, whenever `init`
      runs: in particular all share the root commit. */
  lemma InitShared(hash: Hasher, clock1: string, clock2: string)
    ensures Init(hash, clock1) == Init(hash, clock2)
  {
    RootIdIgnoresClock(hash, clock1, clock2, InitialMessage, map[]);
  }

  /* ---------------------------------------------------------------- add */

  /** `add` as written. `file` is the working file's content, None when it
      does not exist. Content equal to HEAD's blob only cancels a staged
      removal; anything else is stored and staged for addition. */
  function AddAsWritten(r: Repo, hash: Hasher, path: Path, file: Option<Bytes>, isMerge: bool): (res: Result<Repo, Error>)
    ensures file.None? ==> res == if isMerge then Ok(r) else Err(FileDoesNotExist)
    ensures file.Some? && Get(HeadTree(r), path) == Some(BlobId(hash, file.value)) ==>
              res.Ok? && res.value.stage.tracked == r.stage.tracked && path !in res.value.stage.untracked
    ensures file.Some? && Get(HeadTree(r), path) == Some(BlobId(hash, file.value)) ==>
              res.value.blobs == r.blobs && res.value.stage.untracked == r.stage.untracked - {path}
    ensures file.Some? && Get(HeadTree(r), path) != Some(BlobId(hash, file.value)) ==>
              var id := BlobId(hash, file.value);
              && res.Ok? && Get(res.value.stage.tracked, path) == Some(id)
              && path !in res.value.stage.untracked
              && res.value.blobs.Keys == r.blobs.Keys + {id} && res.value.blobs[id] == file.value
              && (forall b | b in r.blobs && b != id :: res.value.blobs[b] == r.blobs[b])
    ensures res.Ok? ==> SameRefs(r, res.value) && OthersStaged(r.stage, res.value.stage, path)
    ensures res.Ok? && Disjoint(r.stage) ==> Disjoint(res.value.stage)
    ensures res.Ok? && Wf(r) ==> Wf(res.value)
  {
    match file
    case None => if isMerge then Ok(r) else Err(FileDoesNotExist)
    case Some(content) =>
      var id := BlobId(hash, content);
      if Get(HeadTree(r), path) == Some(id) then
        Ok(r.(stage := DropUntracked(r.stage, path)))
      else
        Ok(r.(blobs := r.blobs[id := content], stage := AddTracked(DropUntracked(r.stage, path), path, id)))
  }

  /** `add` as its documentation asks: content equal to HEAD's blob also
      cancels a staged addition, so the path is not staged at all. */
  function Add(r: Repo, hash: Hasher, path: Path, file: Option<Bytes>, isMerge: bool): (res: Result<Repo, Error>)
    ensures file.None? ==> res == if isMerge then Ok(r) else Err(FileDoesNotExist)
    ensures file.Some? ==> res.Ok?
    ensures res.Ok? ==> SameRefs(r, res.value) && OthersStaged(r.stage, res.value.stage, path)
    ensures file.Some? ==> path !in res.value.stage.untracked
    ensures file.Some? && Get(HeadTree(r), path) == Some(BlobId(hash, file.value)) ==>
              path !in res.value.stage.tracked && res.value.blobs == r.blobs
    ensures file.Some? && Get(HeadTree(r), path) != Some(BlobId(hash, file.value)) ==>
              var id := BlobId(hash, file.value);
              && Get(res.value.stage.tracked, path) == Some(id)
              && res.value.blobs.Keys == r.blobs.Keys + {id} && res.value.blobs[id] == file.value
              && (forall b | b in r.blobs && b != id :: res.value.blobs[b] == r.blobs[b])
    ensures res.Ok? && Disjoint(r.stage) ==> Disjoint(res.value.stage)
    ensures res.Ok? && Wf(r) ==> Wf(res.value)
    ensures res.Ok? && ContentAddressed(r.blobs, hash) ==> ContentAddressed(res.value.blobs, hash)
  {
    match file
    case None => if isMerge then Ok(r) else Err(FileDoesNotExist)
    case Some(content) =>
      var id := BlobId(hash, content);
      if Get(HeadTree(r), path) == Some(id) then
        Ok(r.(stage := DropTracked(DropUntracked(r.stage, path), path)))
      else
        Ok(r.(blobs := r.blobs[id := content], stage := AddTracked(DropUntracked(r.stage, path), path, id)))
  }

  /* ----------------------------------------------------------------- rm */

  /** `rm`: a file tracked by HEAD is staged for removal (recording whatever
      was staged for addition) and unstaged; a file that is only staged is
      unstaged; anything else has no reason to be removed. */
  function Rm(r: Repo, path: Path, isMerge: bool): (res: Result<Repo, Error>)
    ensures path in HeadTree(r) ==>
              && res.Ok? && path !in res.value.stage.tracked
              && path in res.value.stage.untracked && res.value.stage.untracked[path] == Get(r.stage.tracked, path)
    ensures path !in HeadTree(r) && path in r.stage.tracked ==>
              && res.Ok? && path !in res.value.stage.tracked
              && res.value.stage.untracked == r.stage.untracked
    ensures path !in HeadTree(r) && path !in r.stage.tracked ==>
              res == if isMerge then Ok(r) else Err(NoReasonToRemove)
    ensures res.Ok? ==> SameRefs(r, res.value) && res.value.blobs == r.blobs && OthersStaged(r.stage, res.value.stage, path)
    ensures res.Ok? && Disjoint(r.stage) ==> Disjoint(res.value.stage)
    ensures res.Ok? && Wf(r) ==> Wf(res.value)
  {
    var staged := path in r.stage.tracked;
    var tracked := path in HeadTree(r);
    if tracked then
      Ok(r.(stage := DropTracked(AddUntracked(r.stage, path, Get(r.stage.tracked, path)), path)))
    else if staged then
      Ok(r.(stage := DropTracked(r.stage, path)))
    else if isMerge then Ok(r)
    else Err(NoReasonToRemove)
  }

  /* ------------------------------------------------------------- commit */

  /** The two checks of `commit`, in the source's order. */
  function CommitGuard(stage: StagingArea, message: string, isMerge: bool): (e: Option<Error>)
    ensures e.None? <==> (!NothingStaged(stage) || isMerge) && message != ""
  {
    if NothingStaged(stage) && !isMerge then Some(NoChangesAdded)
    else if message == "" then Some(EmptyMessage)
    else None
  }

  /** The effect of a successful commit of `c`: `c` is stored under its id,
      HEAD and the current branch point at it, no other branch moves, the
      staging area is empty and the blob store is untouched. */
  ghost predicate Advanced(r: Repo, n: Repo, c: Commit) {
    && n.head == c.id
    && n.commits == r.commits[c.id := c]
    && n.current == r.current
    && n.branches.Keys == r.branches.Keys + {r.current} && n.branches[r.current] == c.id
    && (forall b | b in r.branches && b != r.current :: n.branches[b] == r.branches[b])
    && NothingStaged(n.stage)
    && n.blobs == r.blobs
  }

  /** `commit` as written: the record comes from the one-parent constructor,
      so its id leaves the tree out and a merge commit records only HEAD as
      its parent. */
  function CommitAsWritten(r: Repo, hash: Hasher, clock: string, message: string, isMerge: bool): (res: Result<Repo, Error>)
    ensures CommitGuard(r.stage, message, isMerge).Some? ==> res == Err(CommitGuard(r.stage, message, isMerge).value)
    ensures CommitGuard(r.stage, message, isMerge).None? ==> res.Ok?
    ensures res.Ok? ==>
              && res.value.head in res.value.commits
              && var c := res.value.commits[res.value.head];
              && Advanced(r, res.value, c)
              && c.parents == [Some(r.head)] && c.message == message
              && c.blobs == Snapshot(HeadTree(r), r.stage)
  {
    match CommitGuard(r.stage, message, isMerge)
    case Some(e) => Err(e)
    case None =>
      var c := Construct(hash, clock, message, Snapshot(HeadTree(r), r.stage), Some(r.head));
      Ok(r.(commits := r.commits[c.id := c], branches := r.branches[r.current := c.id], head := c.id, stage := Clear(r.stage)))
  }

  /** The parent list of a new commit: HEAD, then the merged-in tip. */
  function ParentsFor(head: Id, mergeParent: Option<Id>): seq<Option<Id>> {
    [Some(head)] + if mergeParent.Some? then [mergeParent] else []
  }

  /** `commit`, with the record its documentation describes: its id covers the tree,
      and a merge commit (`mergeParent` present) lists the merged-in tip as
      its second parent. The new tree is HEAD's tree updated by the staging
      area. */
  function CommitStaged(r: Repo, hash: Hasher, clock: string, message: string, mergeParent: Option<Id>): (res: Result<Repo, Error>)
    ensures NothingStaged(r.stage) && mergeParent.None? ==> res == Err(NoChangesAdded)
    ensures (!NothingStaged(r.stage) || mergeParent.Some?) && message == "" ==> res == Err(EmptyMessage)
    ensures res.Ok? <==> (!NothingStaged(r.stage) || mergeParent.Some?) && message != ""
    ensures res.Ok? ==>
              && res.value.head in res.value.commits
              && var c := res.value.commits[res.value.head];
              && Advanced(r, res.value, c)
              && c.message == message
              && c.blobs == Snapshot(HeadTree(r), r.stage)
              && c.parents == ParentsFor(r.head, mergeParent)
              && c.timestamp == clock
    ensures res.Ok? && Wf(r) && (mergeParent.Some? ==> mergeParent.value in r.commits) ==> Wf(res.value)
  {
    match CommitGuard(r.stage, message, mergeParent.Some?)
    case Some(e) => Err(e)
    case None =>
      var c := Make(hash, clock, message, Snapshot(HeadTree(r), r.stage), ParentsFor(r.head, mergeParent));
      Ok(r.(commits := r.commits[c.id := c], branches := r.branches[r.current := c.id], head := c.id, stage := Clear(r.stage)))
  }

  /** As written, two commits from the same HEAD with the same message and
      clock reading get the same id whatever was staged: the second one
      replaces the first in the commit store. */
  lemma CommitAsWrittenIdIgnoresTree(r: Repo, hash: Hasher, clock: string, message: string, s1: StagingArea, s2: StagingArea)
    requires CommitAsWritten(r.(stage := s1), hash, clock, message, false).Ok?
    requires CommitAsWritten(r.(stage := s2), hash, clock, message, false).Ok?
    ensures CommitAsWritten(r.(stage := s1), hash, clock, message, false).value.head
         == CommitAsWritten(r.(stage := s2), hash, clock, message, false).value.head
  {
  }

  /** A concrete instance: staging different contents for one file yields
      different trees under one id. */
  lemma CommitAsWrittenCollision(r: Repo, hash: Hasher, clock: string)
    ensures var n1 := CommitAsWritten(r.(stage := AddTracked(Fresh(), "f.txt", "a")), hash, clock, "m", false);
            var n2 := CommitAsWritten(r.(stage := AddTracked(Fresh(), "f.txt", "b")), hash, clock, "m", false);
            && n1.Ok? && n2.Ok? && n1.value.head == n2.value.head
            && n1.value.commits[n1.value.head].blobs != n2.value.commits[n2.value.head].blobs
  {
    var t1 := Snapshot(HeadTree(r), AddTracked(Fresh(), "f.txt", "a"));
    var t2 := Snapshot(HeadTree(r), AddTracked(Fresh(), "f.txt", "b"));
    assert t1["f.txt"] != t2["f.txt"];
  }

  /** With a collision-free digest, commits that record different trees get
      different ids. */
  lemma CommitIdCoversTree(r: Repo, hash: Hasher, clock: string, message: string, s1: StagingArea, s2: StagingArea)
    requires Injective(hash)
    requires CommitStaged(r.(stage := s1), hash, clock, message, None).Ok?
    requires CommitStaged(r.(stage := s2), hash, clock, message, None).Ok?
    requires Snapshot(HeadTree(r), s1) != Snapshot(HeadTree(r), s2)
    ensures CommitStaged(r.(stage := s1), hash, clock, message, None).value.head
         != CommitStaged(r.(stage := s2), hash, clock, message, None).value.head
  {
    MakeIdCoversTree(hash, clock, message, Snapshot(HeadTree(r), s1), Snapshot(HeadTree(r), s2), ParentsFor(r.head, None));
  }

  /** As written, the commit that ends a merge lists HEAD as its only
      parent, so the merged-in tip is lost from the history; the corrected
      commit lists it second. */
  lemma MergeCommitAsWrittenDropsGiven(r: Repo, hash: Hasher, clock: string, message: string, given: Id)
    requires message != "" && given != r.head
    ensures var n := CommitAsWritten(r, hash, clock, message, true);
            && n.Ok? && Some(given) !in n.value.commits[n.value.head].parents
    ensures var n := CommitStaged(r, hash, clock, message, Some(given));
            && n.Ok? && n.value.commits[n.value.head].parents == [Some(r.head), Some(given)]
  {
  }

  /** After `add` of content equal to HEAD's version, the next commit keeps
      HEAD's version, even if another version had been staged before. */
  lemma AddThenCommitKeepsContent(r: Repo, hash: Hasher, clock: string, message: string, path: Path, content: Bytes)
    requires Disjoint(r.stage)
    requires CommitStaged(Add(r, hash, path, Some(content), false).value, hash, clock, message, None).Ok?
    ensures var n := CommitStaged(Add(r, hash, path, Some(content), false).value, hash, clock, message, None).value;
            Get(n.commits[n.head].blobs, path) == Some(BlobId(hash, content))
  {
    var a := Add(r, hash, path, Some(content), false).value;
    var id := BlobId(hash, content);
    assert HeadTree(a) == HeadTree(r);
    if Get(HeadTree(r), path) == Some(id) {
      assert path !in a.stage.tracked && path !in a.stage.untracked;
    } else {
      assert Get(a.stage.tracked, path) == Some(id) && path !in a.stage.untracked;
    }
  }

  /** As written, `add` of content equal to HEAD's version after another
      version was staged leaves the stale version staged, and the next
      commit records it. */
  lemma AddAsWrittenCommitsStaleContent(r: Repo, hash: Hasher, clock: string, path: Path, content: Bytes)
    requires Get(HeadTree(r), path) == Some(BlobId(hash, content))
    requires r.stage == AddTracked(Fresh(), path, BlobId(hash, content) + "x")
    ensures var a := AddAsWritten(r, hash, path, Some(content), false);
            && a.Ok?
            && var n := CommitStaged(a.value, hash, clock, "m", None);
            && n.Ok?
            && Get(n.value.commits[n.value.head].blobs, path) == Some(BlobId(hash, content) + "x")
            && Get(n.value.commits[n.value.head].blobs, path) != Some(BlobId(hash, content))
  {
    var a := AddAsWritten(r, hash, path, Some(content), false).value;
    assert a.stage.tracked == r.stage.tracked;
    assert path in a.stage.tracked;
    assert |BlobId(hash, content) + "x"| != |BlobId(hash, content)|;
  }

  /** `rm` of a tracked or staged file keeps it out of the next commit. */
  lemma RmThenCommitDropsFile(r: Repo, hash: Hasher, clock: string, message: string, path: Path)
    requires Rm(r, path, false).Ok?
    requires CommitStaged(Rm(r, path, false).value, hash, clock, message, None).Ok?
    ensures var n := CommitStaged(Rm(r, path, false).value, hash, clock, message, None).value;
            path !in n.commits[n.head].blobs
  {
    var a := Rm(r, path, false).value;
    assert HeadTree(a) == HeadTree(r);
  }

  /* ----------------------------------------------------------- branches */

  /** `branch`: a new name bound to HEAD; an existing name is refused. */
  function Branch(r: Repo, name: string): (res: Result<Repo, Error>)
    ensures name in r.branches ==> res == Err(BranchExists)
    ensures name !in r.branches ==>
              && res.Ok?
              && res.value.branches.Keys == r.branches.Keys + {name}
              && res.value.branches[name] == r.head
              && (forall b | b in r.branches :: res.value.branches[b] == r.branches[b])
              && res.value == r.(branches := res.value.branches)
    ensures res.Ok? && Wf(r) ==> Wf(res.value)
  {
    if name in r.branches then Err(BranchExists)
    else Ok(r.(branches := r.branches[name := r.head]))
  }

  /** `rmbranch` as written: the branch counts as current when it points at
      the same commit as HEAD. */
  function RmBranchAsWritten(r: Repo, name: string): (res: Result<Repo, Error>)
    ensures name !in r.branches ==> res == Err(BranchDoesNotExist)
    ensures name in r.branches && r.branches[name] == r.head ==> res == Err(CannotRemoveCurrent)
    ensures name in r.branches && r.branches[name] != r.head ==> res == Ok(r.(branches := r.branches - {name}))
    ensures res.Ok? ==>
              && res.value.branches.Keys == r.branches.Keys - {name}
              && (forall b | b in res.value.branches :: res.value.branches[b] == r.branches[b])
  {
    if name !in r.branches then Err(BranchDoesNotExist)
    else if r.branches[name] == r.head then Err(CannotRemoveCurrent)
    else Ok(r.(branches := r.branches - {name}))
  }

  /** `rmbranch` comparing branch names: only the current branch is refused. */
  function RmBranch(r: Repo, name: string): (res: Result<Repo, Error>)
    ensures name !in r.branches ==> res == Err(BranchDoesNotExist)
    ensures name in r.branches && name == r.current ==> res == Err(CannotRemoveCurrent)
    ensures name in r.branches && name != r.current ==>
              && res.Ok?
              && res.value.branches.Keys == r.branches.Keys - {name}
              && (forall b | b in res.value.branches :: res.value.branches[b] == r.branches[b])
              && res.value == r.(branches := res.value.branches)
    ensures res.Ok? && Wf(r) ==> Wf(res.value)
  {
    if name !in r.branches then Err(BranchDoesNotExist)
    else if name == r.current then Err(CannotRemoveCurrent)
    else Ok(r.(branches := r.branches - {name}))
  }

  /** Removing a branch just created undoes its creation. */
  lemma BranchThenRmBranch(r: Repo, name: string)
    requires Wf(r) && name !in r.branches
    ensures Branch(r, name).Ok? && RmBranch(Branch(r, name).value, name) == Ok(r)
  {
    assert r.branches[name := r.head] - {name} == r.branches;
  }

  /** A branch just created from HEAD cannot be removed as written, though it
      is not the current branch; comparing names removes it. */
  lemma RmBranchAsWrittenRefusesFreshBranch(r: Repo, name: string)
    requires Wf(r) && name !in r.branches
    ensures Branch(r, name).Ok?
    ensures RmBranchAsWritten(Branch(r, name).value, name) == Err(CannotRemoveCurrent)
    ensures RmBranch(Branch(r, name).value, name).Ok?
  {
  }

  /* ----------------------------------------------------------- checkout */

  /** A working file that HEAD does not track would be overwritten by a file
      of `target`. `cwd` is the set of file names in the working directory. */
  predicate UntrackedInTheWay(cwd: set<Path>, head: Tree, target: Tree) {
    exists f | f in cwd :: f !in head && f in target
  }

  /** `checkout [branch]` as written: besides switching, it writes HEAD's id
      into the checked-out branch's file. */
  function CheckoutBranchAsWritten(r: Repo, name: string, cwd: set<Path>): (res: Result<Repo, Error>)
    ensures name !in r.branches ==> res == Err(NoSuchBranch)
    ensures name in r.branches && name == r.current ==> res == Err(AlreadyCurrentBranch)
    ensures name in r.branches && name != r.current ==>
              (res == Err(UntrackedFileInTheWay) <==> UntrackedInTheWay(cwd, HeadTree(r), TreeOf(r.commits, r.branches[name])))
    ensures name in r.branches && name != r.current && !UntrackedInTheWay(cwd, HeadTree(r), TreeOf(r.commits, r.branches[name])) ==>
              res.Ok?
    ensures res.Ok? ==>
              && res.value.current == name && res.value.head == r.branches[name] && NothingStaged(res.value.stage)
              && res.value.branches == r.branches[name := r.head]
              && res.value.commits == r.commits && res.value.blobs == r.blobs
  {
    if name !in r.branches then Err(NoSuchBranch)
    else if name == r.current then Err(AlreadyCurrentBranch)
    else if UntrackedInTheWay(cwd, HeadTree(r), TreeOf(r.commits, r.branches[name])) then Err(UntrackedFileInTheWay)
    else Ok(r.(current := name, head := r.branches[name], branches := r.branches[name := r.head], stage := Clear(r.stage)))
  }

  /** `checkout [branch]`: refuses an unknown branch, the current branch, or
      a switch that would overwrite an untracked working file; otherwise the
      branch becomes current, HEAD moves to its tip and the staging area is
      cleared. No branch pointer moves. */
  function CheckoutBranch(r: Repo, name: string, cwd: set<Path>): (res: Result<Repo, Error>)
    ensures name !in r.branches ==> res == Err(NoSuchBranch)
    ensures name in r.branches && name == r.current ==> res == Err(AlreadyCurrentBranch)
    ensures name in r.branches && name != r.current ==>
              (res == Err(UntrackedFileInTheWay) <==> UntrackedInTheWay(cwd, HeadTree(r), TreeOf(r.commits, r.branches[name])))
    ensures name in r.branches && name != r.current && !UntrackedInTheWay(cwd, HeadTree(r), TreeOf(r.commits, r.branches[name])) ==>
              res.Ok?
    ensures res.Ok? ==>
              && res.value.current == name && res.value.head == r.branches[name]
              && res.value.branches == r.branches && res.value.commits == r.commits && res.value.blobs == r.blobs
              && NothingStaged(res.value.stage)
    ensures res.Ok? && Wf(r) ==> Wf(res.value)
  {
    if name !in r.branches then Err(NoSuchBranch)
    else if name == r.current then Err(AlreadyCurrentBranch)
    else if UntrackedInTheWay(cwd, HeadTree(r), TreeOf(r.commits, r.branches[name])) then Err(UntrackedFileInTheWay)
    else Ok(r.(current := name, head := r.branches[name], stage := Clear(r.stage)))
  }

  /** As written, checking out a branch that does not point at HEAD leaves
      the new current branch pointing at the old HEAD, and `rmbranch` as
      written then deletes the current branch. */
  lemma CheckoutAsWrittenBreaksCurrentBranch(r: Repo, name: string)
    requires Wf(r) && name in r.branches && name != r.current && r.branches[name] != r.head
    ensures var n := CheckoutBranchAsWritten(r, name, {});
            && n.Ok? && n.value.current == name
            && n.value.branches[n.value.current] != n.value.head
            && !Wf(n.value)
            && RmBranchAsWritten(n.value, name).Ok?
    ensures CheckoutBranch(r, name, {}).Ok? && Wf(CheckoutBranch(r, name, {}).value)
  {
    assert !UntrackedInTheWay({}, HeadTree(r), TreeOf(r.commits, r.branches[name]));
  }

  /** As written, checking out another branch and then the original one
      swaps the two branch pointers: each branch ends up at the other's
      former tip, though HEAD is back where it started. */
  lemma CheckoutRoundTripAsWrittenSwapsBranches(r: Repo, name: string)
    requires Wf(r) && name in r.branches && name != r.current && r.branches[name] != r.head
    ensures var n1 := CheckoutBranchAsWritten(r, name, {});
            && n1.Ok?
            && var n2 := CheckoutBranchAsWritten(n1.value, r.current, {});
            && n2.Ok?
            && n2.value.head == r.head && n2.value.current == r.current
            && n2.value.branches[name] == r.head
            && n2.value.branches[r.current] == r.branches[name]
  {
    var n1 := CheckoutBranchAsWritten(r, name, {}).value;
    assert !UntrackedInTheWay({}, HeadTree(r), TreeOf(r.commits, r.branches[name]));
    assert !UntrackedInTheWay({}, HeadTree(n1), TreeOf(n1.commits, n1.branches[r.current]));
  }

  /** Checking out another branch and then the original one restores the
      repository, with the staging area cleared. */
  lemma CheckoutRoundTrip(r: Repo, name: string)
    requires Wf(r) && name in r.branches && name != r.current
    ensures var n1 := CheckoutBranch(r, name, {});
            && n1.Ok?
            && CheckoutBranch(n1.value, r.current, {}) == Ok(r.(stage := Fresh()))
  {
    var n1 := CheckoutBranch(r, name, {}).value;
    assert !UntrackedInTheWay({}, HeadTree(r), TreeOf(r.commits, r.branches[name]));
    assert !UntrackedInTheWay({}, HeadTree(n1), TreeOf(n1.commits, n1.branches[r.current]));
  }

  /* -------------------------------------------------------------- reset */

  /** `reset`: the id must name a stored commit exactly; a file in the
      working directory that neither HEAD tracks nor is staged, and that the
      target tracks, stops it. Otherwise HEAD and the current branch move to
      the commit and the staging area is cleared. */
  function Reset(r: Repo, id: Id, cwd: set<Path>): (res: Result<Repo, Error>)
    ensures id !in r.commits ==> res == Err(NoSuchCommit)
    ensures id in r.commits ==>
              (res == Err(UntrackedFileInTheWay) <==> exists f | f in cwd :: f in r.commits[id].blobs && f !in r.stage.tracked && f !in HeadTree(r))
    ensures id in r.commits && !(exists f | f in cwd :: f in r.commits[id].blobs && f !in r.stage.tracked && f !in HeadTree(r)) ==>
              res.Ok?
    ensures res.Ok? ==>
              && res.value.head == id && res.value.current == r.current
              && res.value.branches.Keys == r.branches.Keys + {r.current} && res.value.branches[r.current] == id
              && (forall b | b in r.branches && b != r.current :: res.value.branches[b] == r.branches[b])
              && res.value.commits == r.commits && res.value.blobs == r.blobs
              && NothingStaged(res.value.stage)
    ensures res.Ok? && Wf(r) ==> Wf(res.value)
  {
    if id !in r.commits then Err(NoSuchCommit)
    else if exists f | f in cwd :: f in r.commits[id].blobs && f !in r.stage.tracked && f !in HeadTree(r) then Err(UntrackedFileInTheWay)
    else Ok(r.(head := id, branches := r.branches[r.current := id], stage := Clear(r.stage)))
  }

  /** Resetting to HEAD only clears the staging area. */
  lemma ResetToHead(r: Repo, cwd: set<Path>)
    requires Wf(r)
    ensures Reset(r, r.head, cwd) == Ok(r.(stage := Fresh()))
  {
    assert r.branches[r.current := r.head] == r.branches;
  }

  /* ------------------------------------------ abbreviated ids and find */

  /** The commit file `<id>.txt` starts with the abbreviation. */
  predicate MatchesPrefix(id: Id, prefix: string) {
    prefix <= id + ".txt"
  }

  /** Resolution of an abbreviated id against the commit directory's
      listing: the last listed commit whose file name starts with it. */
  function ResolvePrefix(listing: seq<Id>, prefix: string): (r: Option<Id>)
    ensures r.None? <==> forall i | 0 <= i < |listing| :: !MatchesPrefix(listing[i], prefix)
    ensures r.Some? ==> exists i | 0 <= i < |listing| ::
              && listing[i] == r.value && MatchesPrefix(r.value, prefix)
              && forall j | i < j < |listing| :: !MatchesPrefix(listing[j], prefix)
  {
    if listing == [] then None
    else if MatchesPrefix(listing[|listing| - 1], prefix) then Some(listing[|listing| - 1])
    else ResolvePrefix(listing[..|listing| - 1], prefix)
  }

  /** An abbreviation that only one listed commit matches finds that commit. */
  lemma ResolveUniquePrefix(listing: seq<Id>, prefix: string, k: nat)
    requires k < |listing| && MatchesPrefix(listing[k], prefix)
    requires forall j | 0 <= j < |listing| && j != k :: !MatchesPrefix(listing[j], prefix)
    ensures ResolvePrefix(listing, prefix) == Some(listing[k])
  {
  }

  /** `checkout [id] -- [file]`: the blob of `path` in the commit the
      abbreviation resolves to; the working-file write is left to the
      caller. */
  function CheckoutCommitFile(r: Repo, listing: seq<Id>, prefix: string, path: Path): (res: Result<Id, Error>)
    ensures ResolvePrefix(listing, prefix).None? ==> res == Err(NoSuchCommit)
    ensures ResolvePrefix(listing, prefix).Some? ==>
              var id := ResolvePrefix(listing, prefix).value;
              && (id !in r.commits ==> res == Err(NoSuchCommit))
              && (id in r.commits && path !in r.commits[id].blobs ==> res == Err(FileNotInCommit))
              && (id in r.commits && path in r.commits[id].blobs ==> res == Ok(r.commits[id].blobs[path]))
    ensures res.Ok? ==> exists id :: id in listing && MatchesPrefix(id, prefix) && id in r.commits
                                   && path in r.commits[id].blobs && r.commits[id].blobs[path] == res.value
    ensures res == Err(FileNotInCommit) ==> exists id :: id in r.commits && MatchesPrefix(id, prefix) && path !in r.commits[id].blobs
  {
    match ResolvePrefix(listing, prefix)
    case None => Err(NoSuchCommit)
    case Some(id) =>
      if id !in r.commits then Err(NoSuchCommit)
      else if path !in r.commits[id].blobs then Err(FileNotInCommit)
      else Ok(r.commits[id].blobs[path])
  }

  /** When the listing is the commit directory, `checkout [id] -- [file]`
      reports a missing commit exactly when no stored commit's file name
      starts with the abbreviation, and otherwise reads the file from a
      stored commit whose name does. */
  lemma CheckoutCommitFileOfStore(r: Repo, listing: seq<Id>, prefix: string, path: Path)
    requires forall x :: x in listing <==> x in r.commits
    ensures CheckoutCommitFile(r, listing, prefix, path) == Err(NoSuchCommit) <==>
              forall id | id in r.commits :: !MatchesPrefix(id, prefix)
    ensures (exists id | id in r.commits :: MatchesPrefix(id, prefix)) ==>
              exists id | id in r.commits && MatchesPrefix(id, prefix) ::
                CheckoutCommitFile(r, listing, prefix, path) == if path in r.commits[id].blobs then Ok(r.commits[id].blobs[path]) else Err(FileNotInCommit)
  {
    match ResolvePrefix(listing, prefix)
    case None =>
      forall id | id in r.commits ensures !MatchesPrefix(id, prefix) {
        var i :| 0 <= i < |listing| && listing[i] == id;
      }
    case Some(id) =>
      var i :| 0 <= i < |listing| && listing[i] == id && MatchesPrefix(id, prefix);
      assert id in listing;
  }

  /** The listed commits carrying `message`, in listing order. */
  function WithMessage(commits: Store, listing: seq<Id>, message: string): (ids: seq<Id>)
    ensures |ids| <= |listing|
    ensures forall x :: x in ids <==> x in listing && x in commits && commits[x].message == message
  {
    if listing == [] then []
    else
      var rest := WithMessage(commits, listing[1..], message);
      var x := listing[0];
      assert forall y :: y in listing <==> y == x || y in listing[1..];
      if x in commits && commits[x].message == message then [x] + rest else rest
  }

  /** When the listing is the commit directory, `find` reports exactly the
      stored commits with the message, and fails exactly when there is
      none. */
  lemma FindOfStore(r: Repo, listing: seq<Id>, message: string)
    requires forall x :: x in listing <==> x in r.commits
    ensures Find(r, listing, message).Err? <==> forall x | x in r.commits :: r.commits[x].message != message
    ensures Find(r, listing, message).Ok? ==>
              forall x :: x in Find(r, listing, message).value <==> x in r.commits && r.commits[x].message == message
  {
  }

  /** `find`: the ids of every commit with the message, or an error when
      there is none. `listing` is the commit directory in listing order. */
  function Find(r: Repo, listing: seq<Id>, message: string): (res: Result<seq<Id>, Error>)
    ensures res.Err? <==> forall x | x in listing && x in r.commits :: r.commits[x].message != message
    ensures res.Err? ==> res.error == NoCommitWithMessage
    ensures res.Ok? ==> forall x :: x in res.value <==> x in listing && x in r.commits && r.commits[x].message == message
  {
    var ids := WithMessage(r.commits, listing, message);
    if ids == [] then Err(NoCommitWithMessage)
    else
      assert ids[0] in ids;
      Ok(ids)
  }
}

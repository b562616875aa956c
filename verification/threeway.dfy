/** Per-file three-way reconciliation of `merge`, and the layout of a
    conflicted file. */
module ThreeWay {
  import opened Wrappers
  import opened Objects

  /** What happens to one file: it ends up as the given version (None means
      absent), or it is in conflict. */
  datatype Verdict = Take(version: Option<Id>) | Conflict

  /** The reconciliation of one file, from its blob at the split point (`s`),
      in the current branch (`c`) and in the given branch (`g`). */
  function Resolve(s: Option<Id>, c: Option<Id>, g: Option<Id>): (v: Verdict)
    ensures v.Conflict? <==> s != c && s != g && c != g
    ensures v.Take? ==> v.version == c || v.version == g
  {
    if c == g then Take(c)
    else if s == c then Take(g)
    else if s == g then Take(c)
    else Conflict
  }

  /* The numbered rules of the `merge` command's documentation, each as premise and required
     verdict. "Modified" means a different blob than at the split point. */

  /** 1. Modified in the given branch, not in the current one: given version. */
  ghost predicate Rule1(s: Option<Id>, c: Option<Id>, g: Option<Id>, v: Verdict) {
    s.Some? && g.Some? && g != s && c == s ==> v == Take(g)
  }

  /** 2. Modified in the current branch, not in the given one: stays. */
  ghost predicate Rule2(s: Option<Id>, c: Option<Id>, g: Option<Id>, v: Verdict) {
    s.Some? && c.Some? && c != s && g == s ==> v == Take(c)
  }

  /** 3. Modified the same way in both (same content, or both removed): stays. */
  ghost predicate Rule3(s: Option<Id>, c: Option<Id>, g: Option<Id>, v: Verdict) {
    s.Some? && c == g ==> v == Take(c)
  }

  /** 4. Absent at the split point, present only in the current branch: stays. */
  ghost predicate Rule4(s: Option<Id>, c: Option<Id>, g: Option<Id>, v: Verdict) {
    s.None? && c.Some? && g.None? ==> v == Take(c)
  }

  /** 5. Absent at the split point, present only in the given branch: checked
      out from the given branch. */
  ghost predicate Rule5(s: Option<Id>, c: Option<Id>, g: Option<Id>, v: Verdict) {
    s.None? && c.None? && g.Some? ==> v == Take(g)
  }

  /** 6. Present at the split point, unmodified in the current branch, absent
      in the given one: removed. */
  ghost predicate Rule6(s: Option<Id>, c: Option<Id>, g: Option<Id>, v: Verdict) {
    s.Some? && c == s && g.None? ==> v == Take(None)
  }

  /** 7. Present at the split point, unmodified in the given branch, absent in
      the current one: stays absent. */
  ghost predicate Rule7(s: Option<Id>, c: Option<Id>, g: Option<Id>, v: Verdict) {
    s.Some? && g == s && c.None? ==> v == Take(None)
  }

  /** 8. Modified in different ways (different contents, or one changed and
      the other deleted): conflict. */
  ghost predicate Rule8(s: Option<Id>, c: Option<Id>, g: Option<Id>, v: Verdict) {
    c != g && c != s && g != s ==> v == Conflict
  }

  /** Resolve obeys every numbered rule whose premise holds. */
  lemma ResolveFollowsRules(s: Option<Id>, c: Option<Id>, g: Option<Id>)
    ensures var v := Resolve(s, c, g);
            Rule1(s, c, g, v) && Rule2(s, c, g, v) && Rule3(s, c, g, v) && Rule4(s, c, g, v)
            && Rule5(s, c, g, v) && Rule6(s, c, g, v) && Rule7(s, c, g, v) && Rule8(s, c, g, v)
  {
  }

  /** The rules leave nothing open: a file untouched on both sides keeps its
      version, and every other situation falls under one of the rules. */
  lemma RulesCoverEveryCase(s: Option<Id>, c: Option<Id>, g: Option<Id>)
    ensures (c == s && g == s)
            || (s.Some? && g.Some? && g != s && c == s)
            || (s.Some? && c.Some? && c != s && g == s)
            || (s.Some? && c == g)
            || (s.None? && c.Some? && g.None?)
            || (s.None? && c.None? && g.Some?)
            || (s.Some? && c == s && g.None?)
            || (s.Some? && g == s && c.None?)
            || (c != g && c != s && g != s)
            || (s.None? && c == g)
  {
  }

  /** Reconciliation does not depend on which side is "current": swapping
      the branches gives the same version, or a conflict both ways. */
  lemma ResolveSymmetric(s: Option<Id>, c: Option<Id>, g: Option<Id>)
    ensures Resolve(s, c, g) == Resolve(s, g, c)
  {
  }

  /** The three marker lines of a conflicted file. */
  const HeadMarker: Bytes := AsciiBytes("<<<<<<< HEAD\n")
  const Separator: Bytes := AsciiBytes("=======\n")
  const TailMarker: Bytes := AsciiBytes(">>>>>>>\n")

  /** The conflicted file: the markers with both versions in between, with
      no added newlines; an absent side contributes nothing. */
  function ConflictFile(cur: Bytes, given: Bytes): Bytes {
    HeadMarker + cur + Separator + given + TailMarker
  }

  /** `concat`: a fresh array holding the old array followed by the new one,
      filled by two copies. */
  method Concat(oldArr: Bytes, newArr: Bytes) returns (r: Bytes)
    ensures |r| == |oldArr| + |newArr|
    ensures r[..|oldArr|] == oldArr && r[|oldArr|..] == newArr
    ensures r == oldArr + newArr
  {
    var result := new byte[|oldArr| + |newArr|];
    var i := 0;
    while i < |oldArr|
      invariant 0 <= i <= |oldArr|
      invariant forall k | 0 <= k < i :: result[k] == oldArr[k]
    {
      result[i] := oldArr[i];
      i := i + 1;
    }
    var j := 0;
    while j < |newArr|
      invariant 0 <= j <= |newArr|
      invariant forall k | 0 <= k < |oldArr| :: result[k] == oldArr[k]
      invariant forall k | 0 <= k < j :: result[|oldArr| + k] == newArr[k]
    {
      result[|oldArr| + j] := newArr[j];
      j := j + 1;
    }
    r := result[..];
    assert r[..|oldArr|] == oldArr;
    assert r[|oldArr|..] == newArr;
  }

  /** The conflicted file when both sides are present, built by four
      concatenations as the source does. */
  method ConflictBothPresent(cur: Bytes, given: Bytes) returns (vals: Bytes)
    ensures vals == ConflictFile(cur, given)
    ensures |vals| == |HeadMarker| + |cur| + |Separator| + |given| + |TailMarker|
  {
    vals := Concat(HeadMarker, cur);
    vals := Concat(vals, Separator);
    vals := Concat(vals, given);
    vals := Concat(vals, TailMarker);
  }

  /** The conflicted file when the given side is absent. */
  method ConflictGivenAbsent(cur: Bytes) returns (vals: Bytes)
    ensures vals == ConflictFile(cur, [])
  {
    vals := Concat(HeadMarker, cur);
    vals := Concat(vals, Separator);
    vals := Concat(vals, TailMarker);
  }

  /** A worked conflict example: versions "2" and "3" of a file that
      was "1" at the split point. */
  lemma ConflictScenario()
    ensures Resolve(Some("1"), Some("2"), Some("3")) == Conflict
    ensures ConflictFile(AsciiBytes("2"), AsciiBytes("3")) == AsciiBytes("<<<<<<< HEAD\n2=======\n3>>>>>>>\n")
  {
    AsciiBytesAppend("<<<<<<< HEAD\n", "2");
    AsciiBytesAppend("<<<<<<< HEAD\n2", "=======\n");
    AsciiBytesAppend("<<<<<<< HEAD\n2=======\n", "3");
    AsciiBytesAppend("<<<<<<< HEAD\n2=======\n3", ">>>>>>>\n");
  }

  /** The bytes of a version: the stored blob, or nothing for an absent file
      (or a blob the store does not hold). */
  function Content(blobs: map<Id, Bytes>, v: Option<Id>): (b: Bytes)
    ensures v.Some? && v.value in blobs ==> b == blobs[v.value]
    ensures v.None? ==> b == []
  {
    if v.Some? && v.value in blobs then blobs[v.value] else []
  }

  /** The paths a merge considers. */
  function Paths(s: Tree, c: Tree, g: Tree): set<Path> {
    s.Keys + c.Keys + g.Keys
  }

  function VerdictAt(s: Tree, c: Tree, g: Tree, p: Path): Verdict {
    Resolve(Get(s, p), Get(c, p), Get(g, p))
  }

  function ConflictAt(blobs: map<Id, Bytes>, c: Tree, g: Tree, p: Path): Bytes {
    ConflictFile(Content(blobs, Get(c, p)), Content(blobs, Get(g, p)))
  }

  /** A merged tree, and the conflicted files it records (path to content). */
  datatype TreeMerge = TreeMerge(tree: Tree, conflicts: map<Path, Bytes>)

  /** The blob a path ends up with: the version the rules choose (None for
      absent), or the digest of the conflicted file. */
  function VersionAt(hash: Hasher, blobs: map<Id, Bytes>, s: Tree, c: Tree, g: Tree, p: Path): Option<Id> {
    match VerdictAt(s, c, g, p)
    case Take(v) => v
    case Conflict => Some(BlobId(hash, ConflictAt(blobs, c, g, p)))
  }

  /** The merged file tree: each path of the three trees with the blob the
      rules choose; paths the rules leave absent are dropped. */
  function MergedTree(hash: Hasher, blobs: map<Id, Bytes>, s: Tree, c: Tree, g: Tree): (t: Tree)
    ensures forall p :: Get(t, p) == VersionAt(hash, blobs, s, c, g, p)
  {
    VersionsOutsidePaths(hash, blobs, s, c, g);
    map p | p in Paths(s, c, g) && VersionAt(hash, blobs, s, c, g, p).Some? :: VersionAt(hash, blobs, s, c, g, p).value
  }

  /** The conflicted files: every path whose three versions differ pairwise,
      with its conflict-marked content. */
  function ConflictFiles(blobs: map<Id, Bytes>, s: Tree, c: Tree, g: Tree): (m: map<Path, Bytes>)
    ensures forall p :: p in m <==> Get(s, p) != Get(c, p) && Get(s, p) != Get(g, p) && Get(c, p) != Get(g, p)
    ensures forall p | p in m :: m[p] == ConflictAt(blobs, c, g, p)
  {
    map p | p in Paths(s, c, g) && VerdictAt(s, c, g, p).Conflict? :: ConflictAt(blobs, c, g, p)
  }

  /** Reconciles every path of the split-point, current and given trees. */
  function MergeTrees(hash: Hasher, blobs: map<Id, Bytes>, s: Tree, c: Tree, g: Tree): (m: TreeMerge)
    ensures forall p :: Get(m.tree, p) == VersionAt(hash, blobs, s, c, g, p)
    ensures forall p :: p in m.conflicts <==> VerdictAt(s, c, g, p).Conflict?
    ensures forall p | p in m.conflicts :: m.conflicts[p] == ConflictAt(blobs, c, g, p) && Get(m.tree, p) == Some(BlobId(hash, m.conflicts[p]))
  {
    TreeMerge(MergedTree(hash, blobs, s, c, g), ConflictFiles(blobs, s, c, g))
  }

  /** A path absent from all three trees stays absent. */
  lemma VersionsOutsidePaths(hash: Hasher, blobs: map<Id, Bytes>, s: Tree, c: Tree, g: Tree)
    ensures forall p | p !in Paths(s, c, g) :: VersionAt(hash, blobs, s, c, g, p) == None
  {
  }

  /** A merge reports a conflict exactly when some file differs pairwise
      between split point, current branch and given branch. */
  lemma MergeConflictIff(hash: Hasher, blobs: map<Id, Bytes>, s: Tree, c: Tree, g: Tree)
    ensures MergeTrees(hash, blobs, s, c, g).conflicts != map[] <==>
              exists p :: Get(s, p) != Get(c, p) && Get(s, p) != Get(g, p) && Get(c, p) != Get(g, p)
  {
    var m := MergeTrees(hash, blobs, s, c, g);
    if m.conflicts != map[] {
      var p :| p in m.conflicts;
      assert VerdictAt(s, c, g, p).Conflict?;
    }
  }

  /** Swapping the branches changes no file outside the conflicts. */
  lemma MergeTreesSymmetric(hash: Hasher, blobs: map<Id, Bytes>, s: Tree, c: Tree, g: Tree)
    ensures MergeTrees(hash, blobs, s, c, g).conflicts.Keys == MergeTrees(hash, blobs, s, g, c).conflicts.Keys
    ensures forall p | p !in MergeTrees(hash, blobs, s, c, g).conflicts ::
              Get(MergeTrees(hash, blobs, s, c, g).tree, p) == Get(MergeTrees(hash, blobs, s, g, c).tree, p)
  {
    forall p ensures VerdictAt(s, c, g, p) == VerdictAt(s, g, c, p) {
      ResolveSymmetric(Get(s, p), Get(c, p), Get(g, p));
    }
  }
}

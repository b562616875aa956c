/** The staging area: files staged for addition (`tracked`), a map the
    commands never fill (`modified`), and files staged for removal
    (`untracked`). A removal entry records whatever blob id was staged for
    addition at the time, or None. */
module Staging {
  import opened Wrappers
  import opened Objects

  datatype StagingArea = StagingArea(tracked: map<Path, Id>, modified: map<Path, Id>, untracked: map<Path, Option<Id>>)

  /** The check `commit` and `merge` make: nothing staged for addition or
      removal (the `modified` map is not consulted). */
  predicate NothingStaged(s: StagingArea) {
    s.tracked == map[] && s.untracked == map[]
  }

  /** A path is never staged for addition and for removal at once. */
  predicate Disjoint(s: StagingArea) {
    s.tracked.Keys !! s.untracked.Keys
  }

  /** A freshly constructed staging area. */
  function Fresh(): (s: StagingArea)
    ensures NothingStaged(s) && s.modified == map[]
  {
    StagingArea(map[], map[], map[])
  }

  /** `clear`: forgets everything that was staged, whatever it was. */
  function Clear(s: StagingArea): (r: StagingArea)
    ensures NothingStaged(r) && r.modified == map[]
    ensures r == Fresh()
  {
    StagingArea(map[], map[], map[])
  }

  /** `addTracked(f, u)`: stages `f` for addition as blob `u`. */
  function AddTracked(s: StagingArea, f: Path, u: Id): (r: StagingArea)
    ensures r.tracked.Keys == s.tracked.Keys + {f} && r.tracked[f] == u
    ensures forall g | g in s.tracked && g != f :: r.tracked[g] == s.tracked[g]
    ensures r.modified == s.modified && r.untracked == s.untracked
  {
    s.(tracked := s.tracked[f := u])
  }

  /** `addModified(f, u)`. */
  function AddModified(s: StagingArea, f: Path, u: Id): (r: StagingArea)
    ensures r.modified.Keys == s.modified.Keys + {f} && r.modified[f] == u
    ensures forall g | g in s.modified && g != f :: r.modified[g] == s.modified[g]
    ensures r.tracked == s.tracked && r.untracked == s.untracked
  {
    s.(modified := s.modified[f := u])
  }

  /** `addUntracked(f, u)`: stages `f` for removal. */
  function AddUntracked(s: StagingArea, f: Path, u: Option<Id>): (r: StagingArea)
    ensures r.untracked.Keys == s.untracked.Keys + {f} && r.untracked[f] == u
    ensures forall g | g in s.untracked && g != f :: r.untracked[g] == s.untracked[g]
    ensures r.tracked == s.tracked && r.modified == s.modified
  {
    s.(untracked := s.untracked[f := u])
  }

  /** `getTrackedFiles().remove(f)`: `f` is no longer staged for addition. */
  function DropTracked(s: StagingArea, f: Path): (r: StagingArea)
    ensures r.tracked.Keys == s.tracked.Keys - {f}
    ensures forall g | g in r.tracked :: r.tracked[g] == s.tracked[g]
    ensures r.modified == s.modified && r.untracked == s.untracked
  {
    s.(tracked := s.tracked - {f})
  }

  /** `getUntrackedFiles().remove(f)`: `f` is no longer staged for removal. */
  function DropUntracked(s: StagingArea, f: Path): (r: StagingArea)
    ensures r.untracked.Keys == s.untracked.Keys - {f}
    ensures forall g | g in r.untracked :: r.untracked[g] == s.untracked[g]
    ensures r.tracked == s.tracked && r.modified == s.modified
  {
    s.(untracked := s.untracked - {f})
  }

  /** The snapshot builder: the parent's tree, overwritten by every staged
      addition, minus every staged removal. */
  function Snapshot(parent: Tree, s: StagingArea): (t: Tree)
    ensures forall p :: p in t <==> (p in parent || p in s.tracked) && p !in s.untracked
    ensures forall p | p in t :: t[p] == if p in s.tracked then s.tracked[p] else parent[p]
  {
    (parent + s.tracked) - s.untracked.Keys
  }

  /** With nothing staged, the snapshot is the parent's tree. */
  lemma SnapshotOfNothing(parent: Tree, s: StagingArea)
    requires NothingStaged(s)
    ensures Snapshot(parent, s) == parent
  {
  }

  /** The staging that turns tree `c` into tree `m`: every path whose blob
      differs is staged for addition, every path `m` drops is staged for
      removal (with no staged blob to record). */
  function StageFor(c: Tree, m: Tree): (s: StagingArea)
    ensures Disjoint(s)
    ensures forall p :: p in s.tracked <==> p in m && (p !in c || c[p] != m[p])
    ensures forall p :: p in s.untracked <==> p in c && p !in m
    ensures forall p | p in s.tracked :: s.tracked[p] == m[p]
    ensures s.modified == map[]
  {
    StagingArea(map p | p in m && (p !in c || c[p] != m[p]) :: m[p], map[], map p | p in c && p !in m :: None)
  }

  /** Staging the difference and building the snapshot reproduces the
      target tree exactly. */
  lemma SnapshotOfStageFor(c: Tree, m: Tree)
    ensures Snapshot(c, StageFor(c, m)) == m
  {
    var t := Snapshot(c, StageFor(c, m));
    forall p | p in t ensures p in m && t[p] == m[p] {
    }
    forall p | p in m ensures p in t {
    }
  }
}

/** The commit graph: ancestry, the worklist walk over parent links, and the
    split-point search of `merge`. */
module History {
  import opened Wrappers
  import opened Objects
  import opened Commits

  /** The commit store: id to commit record. */
  type Store = map<Id, Commit>

  /** Which parent links a walk follows: only the first parent (as the
      source's backtrace does), or every parent of a merge commit too. */
  datatype Mode = FirstParentOnly | AllParents

  function Edges(c: Commit, mode: Mode): seq<Id> {
    match mode
    case FirstParentOnly => (match FirstParent(c) case Some(p) => [p] case None => [])
    case AllParents => ParentIds(c)
  }

  /** `parent` is a parent of the stored commit `child`. */
  ghost predicate Step(store: Store, mode: Mode, child: Id, parent: Id) {
    child in store && parent in Edges(store[child], mode)
  }

  /** A path through the history, from a commit to one of its ancestors. */
  ghost predicate IsChain(store: Store, mode: Mode, p: seq<Id>) {
    |p| > 0 && forall i | 0 <= i < |p| - 1 :: Step(store, mode, p[i], p[i + 1])
  }

  /** `a` is `d` or can be reached from `d` by following parent links. */
  ghost predicate IsAncestor(store: Store, mode: Mode, a: Id, d: Id) {
    exists p :: IsChain(store, mode, p) && p[0] == d && p[|p| - 1] == a
  }

  ghost predicate CommonAncestor(store: Store, mode: Mode, a: Id, x: Id, y: Id) {
    a in store && IsAncestor(store, mode, a, x) && IsAncestor(store, mode, a, y)
  }

  lemma AncestorRefl(store: Store, mode: Mode, d: Id)
    ensures IsAncestor(store, mode, d, d)
  {
    assert IsChain(store, mode, [d]);
  }

  /** Ancestry extends by one parent link. */
  lemma AncestorStep(store: Store, mode: Mode, a: Id, b: Id, d: Id)
    requires IsAncestor(store, mode, a, d) && Step(store, mode, a, b)
    ensures IsAncestor(store, mode, b, d)
  {
    var p :| IsChain(store, mode, p) && p[0] == d && p[|p| - 1] == a;
    var q := p + [b];
    assert forall i | 0 <= i < |q| - 1 :: q[i] == p[i];
    assert IsChain(store, mode, q);
  }

  /** Only a stored commit has stored ancestors other than itself. */
  lemma AncestorRootStored(store: Store, mode: Mode, a: Id, d: Id)
    requires IsAncestor(store, mode, a, d) && a in store
    ensures d in store
  {
    var p :| IsChain(store, mode, p) && p[0] == d && p[|p| - 1] == a;
    if |p| > 1 {
      assert Step(store, mode, p[0], p[1]);
    }
  }

  /** Every parent link out of `visited` that stays inside the store lands in
      `visited` or is still waiting in `work`. */
  ghost predicate Closed(store: Store, mode: Mode, visited: set<Id>, work: seq<Id>) {
    forall v, q | v in visited && v in store && q in Edges(store[v], mode) && q in store :: q in visited || q in work
  }

  datatype WalkResult = Found(id: Id) | Exhausted(visited: set<Id>)

  /** Breadth-first walk over parent links. Ids waiting in `work` are taken
      from the front; an id already visited or absent from the store is
      skipped; the first stored, unvisited id that lies in `target` ends the
      walk. Otherwise its parents join the back of the queue. */
  function Walk(store: Store, mode: Mode, target: set<Id>, work: seq<Id>, visited: set<Id>): WalkResult
    decreases store.Keys - visited, |work|
  {
    if work == [] then Exhausted(visited)
    else
      var w := work[0];
      if w !in store || w in visited then Walk(store, mode, target, work[1..], visited)
      else if w in target then Found(w)
      else
        assert store.Keys - (visited + {w}) < store.Keys - visited;
        Walk(store, mode, target, work[1..] + Edges(store[w], mode), visited + {w})
  }

  /** Whatever the walk returns descends from `root` when everything it
      started from does. */
  lemma {:induction false} WalkSound(store: Store, mode: Mode, target: set<Id>, work: seq<Id>, visited: set<Id>, root: Id)
    requires forall i | 0 <= i < |work| :: IsAncestor(store, mode, work[i], root)
    requires forall x | x in visited :: IsAncestor(store, mode, x, root)
    ensures Walk(store, mode, target, work, visited).Found? ==>
              var x := Walk(store, mode, target, work, visited).id;
              x in target && x in store && IsAncestor(store, mode, x, root)
    ensures Walk(store, mode, target, work, visited).Exhausted? ==>
              forall x | x in Walk(store, mode, target, work, visited).visited :: IsAncestor(store, mode, x, root)
    decreases store.Keys - visited, |work|
  {
    if work != [] {
      var w := work[0];
      if w !in store || w in visited {
        assert forall i | 0 <= i < |work[1..]| :: work[1..][i] == work[i + 1];
        WalkSound(store, mode, target, work[1..], visited, root);
      } else if w !in target {
        var next := work[1..] + Edges(store[w], mode);
        forall i | 0 <= i < |next| ensures IsAncestor(store, mode, next[i], root) {
          if i < |work| - 1 {
            assert next[i] == work[i + 1];
          } else {
            assert next[i] in Edges(store[w], mode);
            AncestorStep(store, mode, w, next[i], root);
          }
        }
        assert store.Keys - (visited + {w}) < store.Keys - visited;
        WalkSound(store, mode, target, next, visited + {w}, root);
      }
    }
  }

  /** Skipping a visited or unknown id keeps the walk's state closed. */
  lemma ClosedSkip(store: Store, mode: Mode, visited: set<Id>, work: seq<Id>)
    requires work != [] && (work[0] !in store || work[0] in visited)
    requires Closed(store, mode, visited, work)
    ensures Closed(store, mode, visited, work[1..])
  {
    forall v, q | v in visited && v in store && q in Edges(store[v], mode) && q in store && q !in visited
      ensures q in work[1..]
    {
      assert q in work;
      assert work == [work[0]] + work[1..];
    }
  }

  /** Visiting the front id and queueing its parents keeps it closed. */
  lemma ClosedVisit(store: Store, mode: Mode, visited: set<Id>, work: seq<Id>)
    requires work != [] && work[0] in store
    requires Closed(store, mode, visited, work)
    ensures Closed(store, mode, visited + {work[0]}, work[1..] + Edges(store[work[0]], mode))
  {
    var w := work[0];
    var next := work[1..] + Edges(store[w], mode);
    forall v, q | v in visited + {w} && v in store && q in Edges(store[v], mode) && q in store && q !in visited + {w}
      ensures q in next
    {
      if v != w {
        assert q in work;
        assert work == [w] + work[1..];
        assert q in work[1..];
      }
    }
  }

  /** When the walk runs out of work, what it visited contains `visited` and
      every stored id it was given, stays inside the store, is closed under
      parent links, and picked up nothing from `target`. */
  lemma {:induction false} WalkComplete(store: Store, mode: Mode, target: set<Id>, work: seq<Id>, visited: set<Id>)
    requires visited <= store.Keys
    requires Closed(store, mode, visited, work)
    ensures Walk(store, mode, target, work, visited).Exhausted? ==>
              var v := Walk(store, mode, target, work, visited).visited;
              && visited <= v <= store.Keys
              && Closed(store, mode, v, [])
              && (forall i | 0 <= i < |work| && work[i] in store :: work[i] in v)
              && (v - visited) !! target
    decreases store.Keys - visited, |work|
  {
    if work != [] {
      var w := work[0];
      if w !in store || w in visited {
        ClosedSkip(store, mode, visited, work);
        WalkComplete(store, mode, target, work[1..], visited);
        if Walk(store, mode, target, work, visited).Exhausted? {
          forall i | 0 <= i < |work| && work[i] in store
            ensures work[i] in Walk(store, mode, target, work, visited).visited
          {
            if i > 0 {
              assert work[i] == work[1..][i - 1];
            }
          }
        }
      } else if w !in target {
        var next := work[1..] + Edges(store[w], mode);
        ClosedVisit(store, mode, visited, work);
        assert store.Keys - (visited + {w}) < store.Keys - visited;
        WalkComplete(store, mode, target, next, visited + {w});
        if Walk(store, mode, target, work, visited).Exhausted? {
          forall i | 0 <= i < |work| && work[i] in store
            ensures work[i] in Walk(store, mode, target, work, visited).visited
          {
            if i > 0 {
              assert work[i] == next[i - 1];
            }
          }
        }
      }
    }
  }

  /** A set closed under parent links holds every stored ancestor of each of
      its members. */
  lemma ClosedHoldsAncestors(store: Store, mode: Mode, v: set<Id>, root: Id, a: Id)
    requires Closed(store, mode, v, []) && root in v
    requires IsAncestor(store, mode, a, root) && a in store
    ensures a in v
  {
    var p :| IsChain(store, mode, p) && p[0] == root && p[|p| - 1] == a;
    var i := 0;
    while i < |p| - 1
      invariant 0 <= i < |p|
      invariant p[i] in v
    {
      assert Step(store, mode, p[i], p[i + 1]);
      if i + 1 < |p| - 1 {
        assert Step(store, mode, p[i + 1], p[i + 2]);
      }
      assert p[i + 1] in store;
      i := i + 1;
    }
  }

  /** The ancestors of `tip` that are in the store, `tip` included. */
  function Ancestors(store: Store, mode: Mode, tip: Id): set<Id> {
    match Walk(store, mode, {}, [tip], {})
    case Exhausted(v) => v
    case Found(_) => {}
  }

  /** The walk from `tip` computes exactly the stored ancestors of `tip`. */
  lemma AncestorsExact(store: Store, mode: Mode, tip: Id)
    ensures forall a :: a in Ancestors(store, mode, tip) <==> a in store && IsAncestor(store, mode, a, tip)
  {
    AncestorRefl(store, mode, tip);
    WalkSound(store, mode, {}, [tip], {}, tip);
    WalkComplete(store, mode, {}, [tip], {});
    var v := Ancestors(store, mode, tip);
    forall a | a in store && IsAncestor(store, mode, a, tip) ensures a in v {
      AncestorRootStored(store, mode, a, tip);
      ClosedHoldsAncestors(store, mode, v, tip, a);
    }
  }

  /** The split point: walk the given tip's ancestry and stop at the first
      commit that is also an ancestor of the current tip. */
  function SplitPoint(store: Store, mode: Mode, current: Id, given: Id): Option<Id> {
    match Walk(store, mode, Ancestors(store, mode, current), [given], {})
    case Found(s) => Some(s)
    case Exhausted(_) => None
  }

  /** The split point is a common ancestor, and the search fails only when
      the two tips have no common ancestor at all. */
  lemma SplitPointCommon(store: Store, mode: Mode, current: Id, given: Id)
    ensures SplitPoint(store, mode, current, given).Some? ==>
              CommonAncestor(store, mode, SplitPoint(store, mode, current, given).value, current, given)
    ensures SplitPoint(store, mode, current, given).Some? <==> exists a :: CommonAncestor(store, mode, a, current, given)
  {
    var target := Ancestors(store, mode, current);
    AncestorsExact(store, mode, current);
    AncestorRefl(store, mode, given);
    WalkSound(store, mode, target, [given], {}, given);
    WalkComplete(store, mode, target, [given], {});
    var r := Walk(store, mode, target, [given], {});
    if r.Found? {
      assert CommonAncestor(store, mode, r.id, current, given);
    } else {
      forall a | CommonAncestor(store, mode, a, current, given) ensures false {
        AncestorRootStored(store, mode, a, given);
        ClosedHoldsAncestors(store, mode, r.visited, given, a);
      }
    }
  }

  /** When the given tip is itself a stored ancestor of the current tip, the
      search stops at once and returns it. */
  lemma SplitPointOfAncestor(store: Store, mode: Mode, current: Id, given: Id)
    requires given in store && IsAncestor(store, mode, given, current)
    ensures SplitPoint(store, mode, current, given) == Some(given)
  {
    AncestorsExact(store, mode, current);
  }

  /** A commit with at most one parent entry has the same edges either way. */
  lemma EdgesAgree(c: Commit)
    requires |c.parents| <= 1
    ensures Edges(c, FirstParentOnly) == Edges(c, AllParents)
  {
    if |c.parents| == 1 {
      assert c.parents[1..] == [];
      assert ParentIdsOf(c.parents[1..]) == [];
    }
  }

  /** A history in which no commit has a second parent: what the commits
      made by the source always look like. */
  ghost predicate Linear(store: Store) {
    forall id | id in store :: |store[id].parents| <= 1
  }

  /** On a linear history the first-parent walk is the full walk. */
  lemma {:induction false} WalkModesAgree(store: Store, target: set<Id>, work: seq<Id>, visited: set<Id>)
    requires Linear(store)
    ensures Walk(store, FirstParentOnly, target, work, visited) == Walk(store, AllParents, target, work, visited)
    decreases store.Keys - visited, |work|
  {
    if work != [] {
      var w := work[0];
      if w !in store || w in visited {
        WalkModesAgree(store, target, work[1..], visited);
      } else if w !in target {
        EdgesAgree(store[w]);
        assert store.Keys - (visited + {w}) < store.Keys - visited;
        WalkModesAgree(store, target, work[1..] + Edges(store[w], AllParents), visited + {w});
      }
    }
  }

  /** So on a linear history the source's first-parent split point is the
      split point over every parent link. */
  lemma SplitPointModesAgree(store: Store, current: Id, given: Id)
    requires Linear(store)
    ensures SplitPoint(store, FirstParentOnly, current, given) == SplitPoint(store, AllParents, current, given)
  {
    WalkModesAgree(store, {}, [current], {});
    WalkModesAgree(store, Ancestors(store, AllParents, current), [given], {});
  }

  /** A history with a merge: `a`, then `b`, on one line from the root `r`;
      `c` on another; `m` merges `c` into `b`. */
  const Sample: Store := map[
    "r" := Commit("initial commit", EpochStamp, [None], "r", map[]),
    "a" := Commit("a", "t", [Some("r")], "a", map[]),
    "b" := Commit("b", "t", [Some("a")], "b", map[]),
    "c" := Commit("c", "t", [Some("r")], "c", map[]),
    "m" := Commit("m", "t", [Some("b"), Some("c")], "m", map[])]

  lemma SampleEdges()
    ensures forall mode: Mode :: Edges(Sample["r"], mode) == []
    ensures forall mode: Mode :: Edges(Sample["a"], mode) == ["r"]
    ensures forall mode: Mode :: Edges(Sample["b"], mode) == ["a"]
    ensures forall mode: Mode :: Edges(Sample["c"], mode) == ["r"]
    ensures Edges(Sample["m"], FirstParentOnly) == ["b"]
    ensures Edges(Sample["m"], AllParents) == ["b", "c"]
  {
    EdgesAgree(Sample["r"]);
    EdgesAgree(Sample["a"]);
    EdgesAgree(Sample["b"]);
    EdgesAgree(Sample["c"]);
    assert ParentIdsOf([Some("c")]) == ["c"] by {
      assert [Some("c")][1..] == [];
    }
    assert Sample["m"].parents[1..] == [Some("c")];
  }

  /** One step of the walk at a stored, unvisited id outside the target. */
  lemma WalkVisit(store: Store, mode: Mode, target: set<Id>, work: seq<Id>, visited: set<Id>, next: seq<Id>, visited': set<Id>)
    requires work != [] && work[0] in store && work[0] !in visited && work[0] !in target
    requires next == work[1..] + Edges(store[work[0]], mode) && visited' == visited + {work[0]}
    ensures Walk(store, mode, target, work, visited) == Walk(store, mode, target, next, visited')
  {
  }

  lemma SampleAncestors(mode: Mode)
    ensures Ancestors(Sample, mode, "c") == {"c", "r"}
  {
    SampleEdges();
    WalkVisit(Sample, mode, {}, ["c"], {}, ["r"], {"c"});
    WalkVisit(Sample, mode, {}, ["r"], {"c"}, [], {"c", "r"});
  }

  lemma SampleFirstParentSplit()
    ensures SplitPoint(Sample, FirstParentOnly, "c", "m") == Some("r")
  {
    SampleEdges();
    SampleAncestors(FirstParentOnly);
    var target := {"c", "r"};
    WalkVisit(Sample, FirstParentOnly, target, ["m"], {}, ["b"], {"m"});
    WalkVisit(Sample, FirstParentOnly, target, ["b"], {"m"}, ["a"], {"m", "b"});
    WalkVisit(Sample, FirstParentOnly, target, ["a"], {"m", "b"}, ["r"], {"m", "b", "a"});
  }

  lemma SampleFullSplit()
    ensures SplitPoint(Sample, AllParents, "c", "m") == Some("c")
  {
    SampleEdges();
    SampleAncestors(AllParents);
    var target := {"c", "r"};
    WalkVisit(Sample, AllParents, target, ["m"], {}, ["b", "c"], {"m"});
    WalkVisit(Sample, AllParents, target, ["b", "c"], {"m"}, ["c", "a"], {"m", "b"});
  }

  /** Once merge commits carry both parents the two searches differ: in
      `Sample` the current tip `c` is the merge commit `m`'s second parent,
      so the full search returns `c` (a fast-forward), while the
      first-parent search returns the root `r` and would merge. */
  lemma FirstParentSplitMissesSecondParent()
    ensures IsAncestor(Sample, AllParents, "c", "m")
    ensures SplitPoint(Sample, FirstParentOnly, "c", "m") == Some("r")
    ensures SplitPoint(Sample, AllParents, "c", "m") == Some("c")
  {
    SampleEdges();
    assert IsChain(Sample, AllParents, ["m", "c"]);
    SampleFirstParentSplit();
    SampleFullSplit();
  }

  /** A history where `g` merges `z` (a child of `h`) into `y`; `h` and `y`
      both start from the root `r`. */
  const Crossed: Store := map[
    "r" := Commit("initial commit", EpochStamp, [None], "r", map[]),
    "h" := Commit("h", "t", [Some("r")], "h", map[]),
    "y" := Commit("y", "t", [Some("r")], "y", map[]),
    "z" := Commit("z", "t", [Some("h")], "z", map[]),
    "g" := Commit("g", "t", [Some("y"), Some("z")], "g", map[])]

  lemma CrossedEdges()
    ensures Edges(Crossed["r"], AllParents) == []
    ensures Edges(Crossed["h"], AllParents) == ["r"]
    ensures Edges(Crossed["y"], AllParents) == ["r"]
    ensures Edges(Crossed["z"], AllParents) == ["h"]
    ensures Edges(Crossed["g"], AllParents) == ["y", "z"]
  {
    EdgesAgree(Crossed["r"]);
    EdgesAgree(Crossed["h"]);
    EdgesAgree(Crossed["y"]);
    EdgesAgree(Crossed["z"]);
    assert ParentIdsOf([Some("z")]) == ["z"] by {
      assert [Some("z")][1..] == [];
    }
    assert Crossed["g"].parents[1..] == [Some("z")];
  }

  lemma CrossedAncestors()
    ensures Ancestors(Crossed, AllParents, "h") == {"h", "r"}
  {
    CrossedEdges();
    WalkVisit(Crossed, AllParents, {}, ["h"], {}, ["r"], {"h"});
    WalkVisit(Crossed, AllParents, {}, ["r"], {"h"}, [], {"h", "r"});
  }

  lemma CrossedSplitTail()
    ensures Walk(Crossed, AllParents, {"h", "r"}, ["z", "r"], {"g", "y"}) == Found("r")
  {
    CrossedEdges();
    WalkVisit(Crossed, AllParents, {"h", "r"}, ["z", "r"], {"g", "y"}, ["r", "h"], {"g", "y", "z"});
  }

  lemma CrossedSplit()
    ensures SplitPoint(Crossed, AllParents, "h", "g") == Some("r")
  {
    CrossedEdges();
    CrossedAncestors();
    var target := {"h", "r"};
    WalkVisit(Crossed, AllParents, target, ["g"], {}, ["y", "z"], {"g"});
    WalkVisit(Crossed, AllParents, target, ["y", "z"], {"g"}, ["z", "r"], {"g", "y"});
    CrossedSplitTail();
  }

  /** The split point is the first common ancestor the breadth-first walk
      meets, which need not be a lowest one: in `Crossed`, `h` is an
      ancestor of `g` through the second parent `z`, yet the walk from `g`
      reaches the root through the first parent `y` before it reaches `h`. */
  lemma SplitPointNotLowest()
    ensures CommonAncestor(Crossed, AllParents, "h", "h", "g")
    ensures SplitPoint(Crossed, AllParents, "h", "g") == Some("r")
  {
    CrossedEdges();
    assert IsChain(Crossed, AllParents, ["g", "z", "h"]);
    AncestorRefl(Crossed, AllParents, "h");
    CrossedSplit();
  }
}

/** The work area of `Collapse(targets)` (MapBase.cs, AbstractMap.cs) on
    values: how the target list becomes the work area, and what every step
    of the collapse loop keeps of it, so that an empty work area means that
    every cell handed out for a target has collapsed. */
module Areas {
  import opened Basics
  import opened Catalogs
  import opened Grids
  import opened Propagation
  import R = RingBuffers

  // ---------------------------------------------------------------------
  // Gathering the work area.

  /** `targets.Select(GetCell)` from the first target on, threaded through
      the cells each lookup may create: the cells afterwards, every
      non-null cell handed out, and those among them that were not
      collapsed when handed out, which make up the work area. */
  function Gather(g: Grid, cells: map<Vec3, Cell>, targets: seq<Vec3>, handed: set<Vec3>, area: set<Vec3>): (r: (map<Vec3, Cell>, set<Vec3>, set<Vec3>))
    decreases |targets|
    ensures handed <= r.1 && area <= r.2
    ensures cells.Keys <= r.0.Keys && forall k :: k in cells ==> r.0[k] == cells[k]
  {
    if targets == [] then (cells, handed, area)
    else
      var (c1, q) := Resolve(g, cells, targets[0]);
      if q.None? then Gather(g, c1, targets[1..], handed, area)
      else Gather(g, c1, targets[1..], handed + {q.value},
                  if c1[q.value].chosen.None? then area + {q.value} else area)
  }

  /** Every cell handed out is a cell of the map, and it is collapsed or in
      the work area; the work area holds only cells handed out and open
      when they were. */
  lemma {:induction false} GatherCovers(g: Grid, cells: map<Vec3, Cell>, targets: seq<Vec3>, handed: set<Vec3>, area: set<Vec3>)
    requires area <= handed
    requires forall q :: q in handed ==> q in cells && (cells[q].chosen.Some? || q in area)
    ensures var r := Gather(g, cells, targets, handed, area);
      && r.2 <= r.1
      && (forall q :: q in r.1 ==> q in r.0 && (r.0[q].chosen.Some? || q in r.2))
      && (forall q :: q in r.2 - area ==> r.0[q].chosen.None?)
    decreases |targets|
  {
    if targets != [] {
      var (c1, q) := Resolve(g, cells, targets[0]);
      if q.None? {
        GatherCovers(g, c1, targets[1..], handed, area);
      } else {
        var area1 := if c1[q.value].chosen.None? then area + {q.value} else area;
        GatherCovers(g, c1, targets[1..], handed + {q.value}, area1);
        var r := Gather(g, c1, targets[1..], handed + {q.value}, area1);
        forall k | k in r.2 - area ensures r.0[k].chosen.None? {
          if k in area1 {
            assert k == q.value && r.0[k] == c1[k];
          }
        }
      }
    }
  }

  /** A periodic map creates no cell while gathering, and hands out for
      the targets exactly the cells their positions wrap to inside the
      height of the box. */
  lemma {:induction false} GatherTiled(size: Vec3, cells: map<Vec3, Cell>, targets: seq<Vec3>, handed: set<Vec3>, area: set<Vec3>)
    ensures var r := Gather(Tiled(size), cells, targets, handed, area);
      && r.0 == cells
      && forall q :: q in r.1 <==> q in handed || exists t :: t in targets && TiledCell(size, cells, t) == Some(q)
    decreases |targets|
  {
    if targets != [] {
      var q := TiledCell(size, cells, targets[0]);
      var handed1 := if q.None? then handed else handed + {q.value};
      var area1 := if q.Some? && cells[q.value].chosen.None? then area + {q.value} else area;
      GatherTiled(size, cells, targets[1..], handed1, area1);
      var r := Gather(Tiled(size), cells, targets, handed, area);
      assert r == Gather(Tiled(size), cells, targets[1..], handed1, area1);
      forall p ensures p in r.1 <==> p in handed || exists t :: t in targets && TiledCell(size, cells, t) == Some(p) {
        if p in r.1 && p !in handed {
          if p in handed1 {
            assert TiledCell(size, cells, targets[0]) == Some(p);
          } else {
            var t :| t in targets[1..] && TiledCell(size, cells, t) == Some(p);
            assert t in targets;
          }
        }
        if exists t :: t in targets && TiledCell(size, cells, t) == Some(p) {
          var t :| t in targets && TiledCell(size, cells, t) == Some(p);
          if t != targets[0] {
            assert t in targets[1..];
          }
        }
      }
    }
  }

  // ---------------------------------------------------------------------
  // What the collapse loop keeps.

  /** Every cell handed out is a cell of the map, collapsed or still in
      the work area. */
  ghost predicate Covered(st: State, handed: set<Vec3>) {
    && st.workArea.Some?
    && forall q :: q in handed ==> q in st.cells && (st.cells[q].chosen.Some? || q in st.workArea.value)
  }

  /** With a work area, every cell of `a` that is collapsed or in the work
      area is in `b` too, and collapsed or in the work area there. */
  ghost predicate Tracks(a: State, b: State) {
    a.workArea.Some? ==>
      && b.workArea.Some?
      && forall k :: k in a.cells && (a.cells[k].chosen.Some? || k in a.workArea.value) ==>
           k in b.cells && (b.cells[k].chosen.Some? || k in b.workArea.value)
  }

  lemma TracksTrans(a: State, b: State, d: State)
    requires Tracks(a, b) && Tracks(b, d)
    ensures Tracks(a, d)
  {
  }

  /** Coverage holds in every state that tracks a covered one. */
  lemma CoveredKept(a: State, b: State, handed: set<Vec3>)
    requires Covered(a, handed) && Tracks(a, b)
    ensures Covered(b, handed)
  {
  }

  /** A drain tracks: it keeps every module chosen and the work area. */
  lemma DrainTracks(a: State, b: State)
    requires DrainKeeps(a, b)
    ensures Tracks(a, b)
  {
    forall k | k in a.cells ensures k in b.cells && b.cells[k].chosen == a.cells[k].chosen {
      assert NarrowsAt(a.cells[k], b.cells[k]);
    }
  }

  /** `Collapse(m)` tracks: the cell it opens is collapsed from then on,
      and it leaves the work area only once it has collapsed. */
  lemma CollapseTracks(l: Layout, c: Catalog, g: Grid, st: State, p: Vec3, m: nat, fuel: nat)
    requires st.history.size > 0 && R.Inv(st.history)
    ensures Tracks(st, CollapseTo(l, c, g, st, p, m, fuel).0)
  {
    if p in st.cells && st.cells[p].chosen.None? {
      var st1 := Opened(st, p, m);
      OpenedTracks(st, p, m);
      if Live(st1.cells[p]) {
        SettleTracks(l, c, g, st1, p, st1.cells[p].modules.value - {m}, fuel);
        TracksTrans(st, st1, CollapseTo(l, c, g, st, p, m, fuel).0);
      }
    }
  }

  lemma OpenedTracks(st: State, p: Vec3, m: nat)
    requires st.history.size > 0 && R.Inv(st.history) && p in st.cells
    ensures Tracks(st, Opened(st, p, m))
  {
  }

  /** The removal of the other candidates, and on success the cell leaving
      the work area, track. */
  lemma SettleTracks(l: Layout, c: Catalog, g: Grid, st: State, p: Vec3, s: set<nat>, fuel: nat)
    requires p in st.cells && st.cells[p].chosen.Some?
    ensures var r1 := Remove(l, c, g, st, p, s, true, fuel);
      Tracks(st, if r1.2 == Ok then r1.0.(workArea := Settled(r1.0.workArea, p), built := r1.0.built + [p]) else r1.0)
  {
    RemoveTracks(l, c, g, st, p, s, fuel);
    var r1 := Remove(l, c, g, st, p, s, true, fuel);
    if r1.2 == Ok {
      var r2 := r1.0.(workArea := Settled(r1.0.workArea, p), built := r1.0.built + [p]);
      assert Tracks(r1.0, r2);
      TracksTrans(st, r1.0, r2);
    }
  }

  /** `RemoveModules(s)` at a collapsed cell tracks, and the cell keeps
      its module. */
  lemma RemoveTracks(l: Layout, c: Catalog, g: Grid, st: State, p: Vec3, s: set<nat>, fuel: nat)
    requires p in st.cells && st.cells[p].chosen.Some?
    ensures var r := Remove(l, c, g, st, p, s, true, fuel).0;
      Tracks(st, r) && p in r.cells && r.cells[p].chosen == st.cells[p].chosen
  {
    RemoveOnceFrame(l, c, g, st, p, s);
    var r1 := RemoveOnce(l, c, g, st, p, s);
    assert Tracks(st, r1.0);
    if r1.2 == Ok {
      var r2 := Finish(l, c, g, r1.0, fuel);
      DrainTracks(r1.0, r2.0);
      assert NarrowsAt(r1.0.cells[p], r2.0.cells[p]);
      TracksTrans(st, r1.0, r2.0);
    }
  }

  /** `AddModules` tracks: a collapsed cell that regains candidates goes
      back into the work area. */
  lemma AddBackTracks(l: Layout, c: Catalog, g: Grid, st: State, p: Vec3, s: set<nat>)
    ensures Tracks(st, AddBack(l, c, g, st, p, s).0)
  {
    if p in st.cells && Live(st.cells[p]) {
      var cells := AddEach(l, c, g, st.cells, p, s, 0);
      assert forall k :: k in st.cells ==> k in cells && cells[k].chosen == st.cells[k].chosen;
    }
  }

  /** The key loop of `Undo` tracks, from key `i` on. */
  lemma {:induction false} UndoKeysTracks(l: Layout, c: Catalog, g: Grid, st: State, rec: Record, i: nat)
    ensures Tracks(st, UndoKeys(l, c, g, st, rec, i).0)
    decreases |rec.keys| - i
  {
    if i < |rec.keys| {
      var key := rec.keys[i];
      var (cells, q) := Resolve(g, st.cells, key);
      var st1 := st.(cells := cells);
      assert Tracks(st, st1);
      if q.Some? {
        var s := if key in rec.removed then rec.removed[key] else {};
        AddBackTracks(l, c, g, st1, q.value, s);
        var r1 := AddBack(l, c, g, st1, q.value, s);
        TracksTrans(st, st1, r1.0);
        if r1.1 == Ok {
          UndoKeysTracks(l, c, g, r1.0, rec, i + 1);
          TracksTrans(st, r1.0, UndoKeys(l, c, g, r1.0, rec, i + 1).0);
        }
      }
    }
  }

  /** One turn of `Undo` tracks: the reopened cell goes back into the
      work area. */
  lemma UndoOneTracks(l: Layout, c: Catalog, g: Grid, st: State)
    requires st.history.size > 0 && |st.history.items| > 0
    ensures Tracks(st, UndoOne(l, c, g, st).0)
  {
    var rec := st.history.items[|st.history.items| - 1];
    var st0 := st.(history := R.Popped(st.history));
    UndoKeysTracks(l, c, g, st0, rec, 0);
    var r1 := UndoKeys(l, c, g, st0, rec, 0);
    assert Tracks(st, r1.0);
    if r1.1 == Ok && rec.cell in r1.0.cells {
      var st1 := r1.0;
      var st2 := st1.(cells := st1.cells[rec.cell := st1.cells[rec.cell].(chosen := None)], workArea := Reopened(st1.workArea, rec.cell));
      assert Tracks(st1, st2);
      TracksTrans(st, st1, st2);
    }
  }

  /** `Undo(steps)` tracks. */
  lemma {:induction false} UndoStepsTracks(l: Layout, c: Catalog, g: Grid, st: State, steps: int)
    requires st.history.size > 0
    ensures Tracks(st, UndoSteps(l, c, g, st, steps).0)
    decreases if steps > 0 then steps else 0
  {
    if steps > 0 && |st.history.items| > 0 {
      UndoOneTracks(l, c, g, st);
      var r1 := UndoOne(l, c, g, st);
      if r1.1 == Ok {
        UndoStepsTracks(l, c, g, r1.0, steps - 1);
        TracksTrans(st, r1.0, UndoSteps(l, c, g, r1.0, steps - 1).0);
      }
    }
  }

  // ---------------------------------------------------------------------
  // Backtracking.

  /** `backtrack *= 2` on a 32-bit signed integer: the product wraps. */
  function Doubled(b: int): (r: int)
    ensures -0x8000_0000 <= r < 0x8000_0000
    ensures (r - 2 * b) % 0x1_0000_0000 == 0
  {
    (2 * b + 0x8000_0000) % 0x1_0000_0000 - 0x8000_0000
  }

  /** One, or twice a power of two. */
  predicate PowerOfTwo(b: int)
    decreases if b > 0 then b else 0
  {
    b == 1 || (b > 1 && b % 2 == 0 && PowerOfTwo(b / 2))
  }

  /** What `backtrack` can hold: zero, a power of two from two up, or,
      once a doubling has passed the 32-bit range, its wrapped value. */
  predicate BacktrackAmount(b: int) {
    b == 0 || b == -0x8000_0000 || (2 <= b < 0x8000_0000 && PowerOfTwo(b))
  }

  /** Between a power of two and its double, the only power of two is
      the first. */
  lemma {:induction false} PowerOfTwoBetween(b: int, lo: int)
    requires PowerOfTwo(b) && PowerOfTwo(lo) && lo <= b < 2 * lo
    ensures b == lo
    decreases if lo > 0 then lo else 0
  {
    if lo > 1 {
      PowerOfTwoBetween(b / 2, lo / 2);
    }
  }

  function Pow2(n: nat): (r: int)
    ensures r >= 1
  {
    if n == 0 then 1 else 2 * Pow2(n - 1)
  }

  lemma {:induction false} Pow2IsPowerOfTwo(n: nat)
    ensures PowerOfTwo(Pow2(n))
  {
    if n > 0 {
      Pow2IsPowerOfTwo(n - 1);
      assert (2 * Pow2(n - 1)) / 2 == Pow2(n - 1);
    }
  }

  lemma {:induction false} Pow2Add(a: nat, b: nat)
    ensures Pow2(a + b) == Pow2(a) * Pow2(b)
  {
    if a > 0 {
      Pow2Add(a - 1, b);
    }
  }

  lemma DoubledKeepsAmount(b: int)
    requires BacktrackAmount(b)
    ensures BacktrackAmount(Doubled(b))
  {
    if 2 <= b < 0x4000_0000 {
      assert Doubled(b) == 2 * b;
      assert (2 * b) / 2 == b;
    } else if 0x4000_0000 <= b {
      assert Pow2(5) == 32;
      Pow2Add(5, 5);
      Pow2Add(10, 10);
      Pow2Add(20, 10);
      Pow2IsPowerOfTwo(30);
      PowerOfTwoBetween(b, 0x4000_0000);
    }
  }
}

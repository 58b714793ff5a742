/** Narrowing a cell to the modules that meet a demand: `Enforce` and
    `EnforceWalkway`, `EnforceConnector` and `ExcludeConnector`, and the
    constraints a map applies to its top and bottom layers or to its
    default column (`ApplyConstraints`, `ApplyBoundaryConstraints`), stated
    on values. */
module Narrowing {
  import opened Basics
  import opened Catalogs
  import opened Grids
  import opened Propagation
  import Directions
  import Orientations

  /** A periodic box of the given size (TileMap, TilingMap) or an unbounded
      map of the given height (InfiniteMap). */
  datatype Kind = Periodic(size: Vec3) | Unbounded(height: int)

  /** What a cell is narrowed to: modules whose face in direction `d` is
      walkable (`Enforce`, `EnforceWalkway`), or modules that fit, or do
      not fit, a connector in direction `d` (`EnforceConnector`,
      `ExcludeConnector`). */
  datatype Demand = Walkway(d: nat) | Connector(d: nat, connector: int, keep: bool)

  /** Whether module `m` meets the demand, given `GetFace(d).walkable` and
      `Fits(d, connector)` of the modules. */
  predicate Accepts(walkable: (nat, nat) -> bool, fits: (nat, nat, int) -> bool, dm: Demand, m: nat) {
    match dm
    case Walkway(d) => walkable(m, d)
    case Connector(d, connector, keep) => fits(m, d, connector) == keep
  }

  /** The candidates of `mods` that miss the demand (`modules.Where(...)`). */
  function Rejected(mods: set<nat>, walkable: (nat, nat) -> bool, fits: (nat, nat, int) -> bool, dm: Demand): (r: set<nat>)
    ensures forall m :: m in r <==> m in mods && !Accepts(walkable, fits, dm, m)
  {
    set m | m in mods && !Accepts(walkable, fits, dm, m)
  }

  /** Resolving `p` and removing, with a drain, every candidate of the cell
      that misses the demand. A null or forgotten cell faults. */
  function Narrowed(l: Layout, c: Catalog, g: Grid, st: State, p: Vec3,
                    walkable: (nat, nat) -> bool, fits: (nat, nat, int) -> bool, dm: Demand, fuel: nat): (State, Outcome) {
    var r0 := Resolve(g, st.cells, p);
    if r0.1.None? || !Live(r0.0[r0.1.value]) then (st.(cells := r0.0), Fault)
    else
      var r := Remove(l, c, g, st.(cells := r0.0), r0.1.value, Rejected(r0.0[r0.1.value].modules.value, walkable, fits, dm), true, fuel);
      (r.0, r.2)
  }

  /** A removal with its drain: removing every candidate is a
      contradiction (before any drain), and success leaves the cell live with candidates it
      had that were not removed. */
  lemma RemoveLeaves(l: Layout, c: Catalog, g: Grid, st: State, p: Vec3, s: set<nat>, fuel: nat)
    requires p in st.cells && Live(st.cells[p])
    ensures var r := Remove(l, c, g, st, p, s, true, fuel);
      var before := st.cells[p].modules.value;
      && (before <= s ==> r.2 == Contradiction)
      && (r.2 == Ok ==> p in r.0.cells && Live(r.0.cells[p]) && r.0.cells[p].modules.value <= before - s)
  {
    var r1 := RemoveOnce(l, c, g, st, p, s);
    if r1.2 == Ok {
      RemoveOnceFrame(l, c, g, st, p, s);
      var r2 := Finish(l, c, g, r1.0, fuel);
      assert NarrowsAt(r1.0.cells[p], r2.0.cells[p]);
    }
  }

  /** What narrowing promises: a null or forgotten cell faults; a cell
      whose every candidate misses the demand runs into a contradiction;
      and on success the cell keeps only candidates it had that meet it. */
  lemma NarrowedKeepsOnly(l: Layout, c: Catalog, g: Grid, st: State, p: Vec3,
                          walkable: (nat, nat) -> bool, fits: (nat, nat, int) -> bool, dm: Demand, fuel: nat)
    ensures var r := Narrowed(l, c, g, st, p, walkable, fits, dm, fuel);
      var r0 := Resolve(g, st.cells, p);
      && (r0.1.None? || !Live(r0.0[r0.1.value]) ==> r.1 == Fault && r.0 == st.(cells := r0.0))
      && (r0.1.Some? && Live(r0.0[r0.1.value]) ==>
            var before := r0.0[r0.1.value].modules.value;
            && ((forall m :: m in before ==> !Accepts(walkable, fits, dm, m)) ==> r.1 == Contradiction)
            && (r.1 == Ok ==>
                  && r0.1.value in r.0.cells && Live(r.0.cells[r0.1.value])
                  && forall m :: m in r.0.cells[r0.1.value].modules.value ==> m in before && Accepts(walkable, fits, dm, m)))
  {
    var r0 := Resolve(g, st.cells, p);
    if r0.1.Some? && Live(r0.0[r0.1.value]) {
      var before := r0.0[r0.1.value].modules.value;
      var s := Rejected(before, walkable, fits, dm);
      RemoveLeaves(l, c, g, st.(cells := r0.0), r0.1.value, s, fuel);
      if forall m :: m in before ==> !Accepts(walkable, fits, dm, m) {
        assert before <= s;
      }
    }
  }

  /** The direction `EnforceWalkway(start, destination)` takes: `GetIndex`
      of the offset in the six-way solver; in the four-way solver the index
      the direction table assigns, where the source's `GetIndex` swaps
      left and right. */
  function WalkwayIndex(l: Layout, v: Vec3): (d: nat)
    ensures d < DirCount(l)
  {
    if l.SixWay? then Directions.GetIndex(v) else Orientations.DirectionIndex(v)
  }

  /** `EnforceWalkway(start, destination)`: the walkway is enforced on the
      start toward the destination, then on the destination back toward
      the start. */
  function WalkwayBetween(l: Layout, c: Catalog, g: Grid, st: State, start: Vec3, dest: Vec3,
                          walkable: (nat, nat) -> bool, fits: (nat, nat, int) -> bool, fuel: nat): (State, Outcome)
  {
    var d := WalkwayIndex(l, Sub(dest, start));
    var r1 := Narrowed(l, c, g, st, start, walkable, fits, Walkway(d), fuel);
    if r1.1 != Ok then r1
    else Narrowed(l, c, g, r1.0, dest, walkable, fits, Walkway(Opp(l, d)), fuel)
  }

  /** Between neighbours the walkway faces the right way: the index of a
      step is that step's direction, and the destination's side is the one
      that looks back at the start. */
  lemma WalkwayFacesEachOther(l: Layout, start: Vec3, d: nat)
    requires d < DirCount(l)
    ensures WalkwayIndex(l, Sub(Step(l, start, d), start)) == d
    ensures Opp(l, d) < DirCount(l) && Step(l, Step(l, start, d), Opp(l, d)) == start
  {
    assert Sub(Step(l, start, d), start) == Dir(l, d);
    if l.SixWay? {
      Directions.GetIndexInvertsVector(d);
    } else {
      Orientations.DirectionIndexInvertsVector(d);
    }
    OppBack(l, d, start);
  }

  /** The four-way `EnforceWalkway` as written takes the table's `GetIndex`
      of the step. A step along z gets its own direction. A step along x
      gets the opposite one, so the start's walkway looks away from the
      destination and the destination's looks away from the start. */
  lemma WalkwayAsWrittenFacesAway(start: Vec3, d: nat)
    requires d < Orientations.Count
    ensures var i := Orientations.GetIndex(Sub(Step(FourWay, start, d), start));
      && 0 <= i < Orientations.Count
      && (d == Orientations.Forward || d == Orientations.Back ==> i == d)
      && (d == Orientations.Left || d == Orientations.Right ==> i == Opp(FourWay, d) && i != d)
  {
    assert Sub(Step(FourWay, start, d), start) == Orientations.Vector(d);
    Orientations.GetIndexSwapsLeftAndRight();
  }

  // ---------------------------------------------------------------------
  // Narrowing several cells in turn.

  /** Narrowing the cells of `aims` in order; the first narrowing that does
      not succeed ends the run with its state and outcome, as the exception
      it stands for would. */
  function NarrowAll(l: Layout, c: Catalog, g: Grid, st: State, walkable: (nat, nat) -> bool,
                     fits: (nat, nat, int) -> bool, aims: seq<(Vec3, Demand)>, fuel: nat): (State, Outcome)
    decreases |aims|
  {
    if aims == [] then (st, Ok)
    else
      var r := Narrowed(l, c, g, st, aims[0].0, walkable, fits, aims[0].1, fuel);
      if r.1 != Ok then r else NarrowAll(l, c, g, r.0, walkable, fits, aims[1..], fuel)
  }

  /** Running two lists of narrowings one after the other is running their
      concatenation. */
  lemma {:induction false} NarrowAllAppend(l: Layout, c: Catalog, g: Grid, st: State, walkable: (nat, nat) -> bool,
                                           fits: (nat, nat, int) -> bool, a: seq<(Vec3, Demand)>, b: seq<(Vec3, Demand)>, fuel: nat)
    ensures NarrowAll(l, c, g, st, walkable, fits, a + b, fuel) ==
      var r := NarrowAll(l, c, g, st, walkable, fits, a, fuel);
      if r.1 != Ok then r else NarrowAll(l, c, g, r.0, walkable, fits, b, fuel)
    decreases |a|
  {
    if a == [] {
      assert a + b == b;
    } else {
      assert (a + b)[0] == a[0] && (a + b)[1..] == a[1..] + b;
      var r := Narrowed(l, c, g, st, a[0].0, walkable, fits, a[0].1, fuel);
      if r.1 == Ok {
        NarrowAllAppend(l, c, g, r.0, walkable, fits, a[1..], b, fuel);
      }
    }
  }

  /** No cell goes away, and a live cell stays live and only loses
      candidates. */
  ghost predicate Shrinks(a: map<Vec3, Cell>, b: map<Vec3, Cell>) {
    && a.Keys <= b.Keys
    && forall k :: k in a && Live(a[k]) ==> Live(b[k]) && b[k].modules.value <= a[k].modules.value
  }

  /** The cell the map hands out for `p` exists, is live, and has only
      candidates that meet the demand. */
  ghost predicate Meets(g: Grid, cells: map<Vec3, Cell>, walkable: (nat, nat) -> bool,
                        fits: (nat, nat, int) -> bool, p: Vec3, dm: Demand) {
    var q := Resolve(g, cells, p).1;
    && q.Some? && q.value in cells && Live(cells[q.value])
    && forall m :: m in cells[q.value].modules.value ==> Accepts(walkable, fits, dm, m)
  }

  lemma ShrinksTrans(a: map<Vec3, Cell>, b: map<Vec3, Cell>, d: map<Vec3, Cell>)
    requires Shrinks(a, b) && Shrinks(b, d)
    ensures Shrinks(a, d)
  {
  }

  /** Once the cell a position resolves to exists, the position resolves to
      it for as long as no cell goes away. */
  lemma ResolveKept(g: Grid, a: map<Vec3, Cell>, b: map<Vec3, Cell>, p: Vec3)
    requires a.Keys <= b.Keys
    requires Resolve(g, a, p).1.Some? && Resolve(g, a, p).1.value in a
    ensures Resolve(g, b, p).1 == Resolve(g, a, p).1
  {
  }

  /** Resolving a position a second time hands out the same cell and
      creates nothing more. */
  lemma ResolveAgain(g: Grid, a: map<Vec3, Cell>, p: Vec3)
    ensures var r := Resolve(g, a, p); Resolve(g, r.0, p) == r
  {
  }

  /** A removal only narrows, even on a collapsed cell. */
  lemma RemoveOnceShrinks(l: Layout, c: Catalog, g: Grid, st: State, p: Vec3, s: set<nat>)
    ensures Shrinks(st.cells, RemoveOnce(l, c, g, st, p, s).0.cells)
  {
    var r := RemoveOnce(l, c, g, st, p, s);
    if r.2 != Fault {
      RemoveOnceFrame(l, c, g, st, p, s);
      forall k | k in st.cells && Live(st.cells[k])
        ensures k in r.0.cells && Live(r.0.cells[k]) && r.0.cells[k].modules.value <= st.cells[k].modules.value
      {
        if k == p {
          assert r.0.cells[p].modules == Some(st.cells[p].modules.value - s);
        } else {
          assert r.0.cells[k].modules == st.cells[k].modules;
        }
      }
    }
  }

  /** A drain only narrows. */
  lemma FinishShrinks(l: Layout, c: Catalog, g: Grid, st: State, fuel: nat)
    ensures Shrinks(st.cells, Finish(l, c, g, st, fuel).0.cells)
  {
    var r := Finish(l, c, g, st, fuel);
    forall k | k in st.cells && Live(st.cells[k])
      ensures Live(r.0.cells[k]) && r.0.cells[k].modules.value <= st.cells[k].modules.value
    {
      assert NarrowsAt(st.cells[k], r.0.cells[k]);
    }
  }

  /** Narrowing a cell only narrows: it may create the cell it resolves to,
      and every live cell stays live with fewer or the same candidates. */
  lemma NarrowedShrinks(l: Layout, c: Catalog, g: Grid, st: State, p: Vec3,
                        walkable: (nat, nat) -> bool, fits: (nat, nat, int) -> bool, dm: Demand, fuel: nat)
    ensures Shrinks(st.cells, Resolve(g, st.cells, p).0)
    ensures Shrinks(Resolve(g, st.cells, p).0, Narrowed(l, c, g, st, p, walkable, fits, dm, fuel).0.cells)
  {
    var r0 := Resolve(g, st.cells, p);
    if r0.1.Some? && Live(r0.0[r0.1.value]) {
      var q := r0.1.value;
      var st1 := st.(cells := r0.0);
      var s := Rejected(r0.0[q].modules.value, walkable, fits, dm);
      RemoveOnceShrinks(l, c, g, st1, q, s);
      var r1 := RemoveOnce(l, c, g, st1, q, s);
      if r1.2 == Ok {
        FinishShrinks(l, c, g, r1.0, fuel);
        ShrinksTrans(r0.0, r1.0.cells, Finish(l, c, g, r1.0, fuel).0.cells);
      }
    }
  }

  /** A narrowing that succeeds leaves its cell meeting the demand. */
  lemma NarrowedMeets(l: Layout, c: Catalog, g: Grid, st: State, p: Vec3,
                      walkable: (nat, nat) -> bool, fits: (nat, nat, int) -> bool, dm: Demand, fuel: nat)
    ensures var r := Narrowed(l, c, g, st, p, walkable, fits, dm, fuel);
      r.1 == Ok ==> Meets(g, r.0.cells, walkable, fits, p, dm)
  {
    var r := Narrowed(l, c, g, st, p, walkable, fits, dm, fuel);
    if r.1 == Ok {
      NarrowedKeepsOnly(l, c, g, st, p, walkable, fits, dm, fuel);
      NarrowedShrinks(l, c, g, st, p, walkable, fits, dm, fuel);
      var r0 := Resolve(g, st.cells, p);
      ResolveAgain(g, st.cells, p);
      ResolveKept(g, r0.0, r.0.cells, p);
    }
  }

  /** A narrowing leaves a cell that meets a demand meeting it. */
  lemma MeetsKept(g: Grid, a: map<Vec3, Cell>, b: map<Vec3, Cell>, walkable: (nat, nat) -> bool,
                  fits: (nat, nat, int) -> bool, p: Vec3, dm: Demand)
    requires Meets(g, a, walkable, fits, p, dm) && Shrinks(a, b)
    ensures Meets(g, b, walkable, fits, p, dm)
  {
    ResolveKept(g, a, b, p);
  }

  /** What a run of narrowings promises: every cell only narrows, and when
      the run succeeds, every cell it aimed at meets its demand, the early
      ones too. */
  lemma {:induction false} NarrowAllMeets(l: Layout, c: Catalog, g: Grid, st: State, walkable: (nat, nat) -> bool,
                                          fits: (nat, nat, int) -> bool, aims: seq<(Vec3, Demand)>, fuel: nat)
    ensures var r := NarrowAll(l, c, g, st, walkable, fits, aims, fuel);
      && Shrinks(st.cells, r.0.cells)
      && (r.1 == Ok ==> forall i :: 0 <= i < |aims| ==> Meets(g, r.0.cells, walkable, fits, aims[i].0, aims[i].1))
    decreases |aims|
  {
    if aims != [] {
      var r1 := Narrowed(l, c, g, st, aims[0].0, walkable, fits, aims[0].1, fuel);
      NarrowedShrinks(l, c, g, st, aims[0].0, walkable, fits, aims[0].1, fuel);
      ShrinksTrans(st.cells, Resolve(g, st.cells, aims[0].0).0, r1.0.cells);
      if r1.1 == Ok {
        NarrowAllMeets(l, c, g, r1.0, walkable, fits, aims[1..], fuel);
        var r := NarrowAll(l, c, g, r1.0, walkable, fits, aims[1..], fuel);
        ShrinksTrans(st.cells, r1.0.cells, r.0.cells);
        if r.1 == Ok {
          NarrowedMeets(l, c, g, st, aims[0].0, walkable, fits, aims[0].1, fuel);
          MeetsKept(g, r1.0.cells, r.0.cells, walkable, fits, aims[0].0, aims[0].1);
          forall i | 0 <= i < |aims| ensures Meets(g, r.0.cells, walkable, fits, aims[i].0, aims[i].1) {
            if i > 0 {
              assert aims[i] == aims[1..][i - 1];
            }
          }
        }
      }
    } else {
      assert Shrinks(st.cells, st.cells);
    }
  }

  // ---------------------------------------------------------------------
  // Constraints.

  /** Every position of `ps` with the same demand. */
  function Aimed(ps: seq<Vec3>, dm: Demand): (r: seq<(Vec3, Demand)>)
    ensures |r| == |ps|
    ensures forall i :: 0 <= i < |ps| ==> r[i] == (ps[i], dm)
  {
    if ps == [] then [] else [(ps[0], dm)] + Aimed(ps[1..], dm)
  }

  /** The position `p` with the connector demand of `k` in each direction of
      `dirs`, in order. */
  function Faces(p: Vec3, dirs: seq<int>, k: Constraint): (r: seq<(Vec3, Demand)>)
    requires forall i :: 0 <= i < |dirs| ==> dirs[i] >= 0
    ensures |r| == |dirs|
    ensures forall i :: 0 <= i < |dirs| ==> r[i] == (p, Connector(dirs[i], k.connector, k.mode == EnforceConnector))
  {
    if dirs == [] then [] else [(p, Connector(dirs[0], k.connector, k.mode == EnforceConnector))] + Faces(p, dirs[1..], k)
  }

  /** The directions a lazy map constrains its default column in: above,
      below or the four sides in the six-way solver; the older solver has
      only the sides, `PossibleDirections`. */
  function ColumnDirections(l: Layout, side: ConstraintDirection): (r: seq<int>)
    ensures forall i :: 0 <= i < |r| ==> 0 <= r[i] < DirCount(l)
  {
    if l.FourWay? then Orientations.PossibleDirections
    else match side
      case Up => [Directions.Up]
      case Down => [Directions.Down]
      case Horizontal => Directions.Horizontal
  }

  /** The cells a constraint narrows and how, in the order the source
      visits them. `TileMap` narrows its top layer toward up or its bottom
      layer toward down and ignores a sideways constraint; `TilingMap`
      ignores every constraint; a lazy map narrows the cell of its default
      column at the constraint's height in each of the constraint's
      directions. */
  function ConstraintAims(l: Layout, kind: Kind, k: Constraint): (r: seq<(Vec3, Demand)>)
  {
    match kind
    case Periodic(size) =>
      if l.FourWay? then []
      else
        var keep := k.mode == EnforceConnector;
        (match k.direction
         case Up => Aimed(Layer(size.x, size.y - 1, size.z), Connector(Directions.Up, k.connector, keep))
         case Down => Aimed(Layer(size.x, 0, size.z), Connector(Directions.Down, k.connector, keep))
         case Horizontal => [])
    case Unbounded(height) =>
      Faces(Vec3(0, ConstraintLayer(k.yLocal, height), 0), ColumnDirections(l, k.direction), k)
  }

  /** The aims of every constraint, in order. */
  function Aims(l: Layout, kind: Kind, cs: seq<Constraint>): (r: seq<(Vec3, Demand)>)
    decreases |cs|
  {
    if cs == [] then [] else ConstraintAims(l, kind, cs[0]) + Aims(l, kind, cs[1..])
  }

  /** Every aim of every constraint is among the aims of the list. */
  lemma {:induction false} AimsCover(l: Layout, kind: Kind, cs: seq<Constraint>, j: nat, a: (Vec3, Demand))
    requires j < |cs| && a in ConstraintAims(l, kind, cs[j])
    ensures a in Aims(l, kind, cs)
    decreases |cs|
  {
    if j > 0 {
      assert cs[1..][j - 1] == cs[j];
      AimsCover(l, kind, cs[1..], j - 1, a);
    }
  }

  /** What `TileMap.ApplyConstraints` aims at: an enforced or excluded
      connector on the top side of every cell of the top layer, or the
      bottom side of every cell of the bottom layer. */
  lemma LayerAims(l: Layout, size: Vec3, k: Constraint, p: Vec3)
    requires l.SixWay? && k.direction != Horizontal
    ensures var y := if k.direction == Up then size.y - 1 else 0;
      var d := if k.direction == Up then Directions.Up else Directions.Down;
      var a := (p, Connector(d, k.connector, k.mode == EnforceConnector));
      a in ConstraintAims(l, Periodic(size), k) <==> p.y == y && 0 <= p.x < size.x && 0 <= p.z < size.z
  {
    var y := if k.direction == Up then size.y - 1 else 0;
    LayerExactly(size.x, y, size.z, p);
  }

  /** When every constraint has been applied without a contradiction or a
      fault, every cell a constraint aimed at has only candidates that fit
      (`EnforceConnector`) or do not fit (`ExcludeConnector`) its
      connector in the constrained direction. */
  lemma ConstraintsHold(l: Layout, c: Catalog, g: Grid, st: State, walkable: (nat, nat) -> bool,
                        fits: (nat, nat, int) -> bool, kind: Kind, cs: seq<Constraint>, fuel: nat)
    ensures var r := NarrowAll(l, c, g, st, walkable, fits, Aims(l, kind, cs), fuel);
      r.1 == Ok ==>
        forall j, a :: 0 <= j < |cs| && a in ConstraintAims(l, kind, cs[j]) ==>
          Meets(g, r.0.cells, walkable, fits, a.0, a.1)
  {
    var aims := Aims(l, kind, cs);
    NarrowAllMeets(l, c, g, st, walkable, fits, aims, fuel);
    var r := NarrowAll(l, c, g, st, walkable, fits, aims, fuel);
    if r.1 == Ok {
      forall j, a | 0 <= j < |cs| && a in ConstraintAims(l, kind, cs[j])
        ensures Meets(g, r.0.cells, walkable, fits, a.0, a.1)
      {
        AimsCover(l, kind, cs, j, a);
        var i :| 0 <= i < |aims| && aims[i] == a;
      }
    }
  }
}

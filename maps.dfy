/** The map objects of both solvers (MapBase.cs with TileMap.cs and
    MapGeneration/InfiniteMap.cs; AbstractMap.cs with TilingMap.cs and
    InfiniteMap.cs), together with the cell operations of Cell.cs and
    Slot.cs, which reach the cells through their map. Every method carries
    out its operation loop by loop and is proved to end in the state that
    the functions of `Propagation` compute; a periodic map keeps, as a class
    invariant, every health counter equal to the support it counts. */
module Maps {
  import opened Basics
  import opened Catalogs
  import opened Grids
  import opened Propagation
  import Q = QueueDictionaries
  import R = RingBuffers
  import HealthLaw
  import opened Narrowing
  import opened Areas

  // ---------------------------------------------------------------------
  // The counter loops of `RemoveModules`, on one neighbour's row.

  /** Queuing several removals for one key in two rounds queues them all. */
  lemma EnqueueUnion(q: Q.QueueDict<Vec3, set<nat>>, key: Vec3, a: set<nat>, b: set<nat>)
    ensures Enqueue(Enqueue(q, key, a), key, b) == Enqueue(q, key, a + b)
  {
    if a == {} {
      assert a + b == b;
    } else if b == {} {
      assert a + b == a;
    } else {
      var (q1, v) := Q.Lookup(q, key, {});
      var qa := q1.(dict := q1.dict[key := v + a]);
      assert Enqueue(q, key, a) == qa;
      assert Q.Lookup(qa, key, {}) == (qa, v + a);
      assert v + a + b == v + (a + b);
    }
  }

  /** One more removed module `m` empties, on top of what `done` emptied,
      exactly the candidates it supports whose counter then stands at one. */
  lemma EmptiedStep(c: Catalog, row0: seq<int>, done: set<nat>, m: nat, d: nat, mods: set<nat>)
    requires m !in done
    ensures Emptied(c, row0, done + {m}, d, mods) ==
      Emptied(c, row0, done, d, mods)
      + set x | x in mods && x < |row0| && Allows(c, m, d, x) && row0[x] - Support(c, done, d, x) == 1
  {
    forall x | x in mods && x < |row0| {
      SupportInsert(c, done, m, d, x);
    }
  }

  /** The innermost loop of `RemoveModules` for one removed module: every
      module of `list` loses one supporter, and those whose counter stood at
      one while still a candidate of the neighbour are queued for removal. */
  method WithdrawList(row0: seq<int>, list: seq<nat>, mods: set<nat>, q0: Q.QueueDict<Vec3, set<nat>>, key: Vec3)
    returns (row: seq<int>, q: Q.QueueDict<Vec3, set<nat>>, hit: set<nat>)
    requires forall i, j :: 0 <= i < j < |list| ==> list[i] < list[j]
    ensures |row| == |row0|
    ensures forall x :: 0 <= x < |row0| ==> row[x] == row0[x] - (if x in list then 1 else 0)
    ensures hit == set x | x in list && x in mods && x < |row0| && row0[x] == 1
    ensures q == Enqueue(q0, key, hit)
  {
    row, q, hit := row0, q0, {};
    var j := 0;
    while j < |list|
      invariant 0 <= j <= |list| && |row| == |row0|
      invariant forall x :: 0 <= x < |row0| ==> row[x] == row0[x] - (if x in list[..j] then 1 else 0)
      invariant hit == set x | x in list[..j] && x in mods && x < |row0| && row0[x] == 1
      invariant q == Enqueue(q0, key, hit)
    {
      var x := list[j];
      assert x !in list[..j];
      assert list[..j + 1] == list[..j] + [x];
      if x < |row| {
        if row[x] == 1 && x in mods {
          EnqueueUnion(q0, key, hit, {x});
          var (q1, v) := Q.Lookup(q, key, {});
          q := q1.(dict := q1.dict[key := v + {x}]);
          hit := hit + {x};
        }
        row := row[x := row[x] - 1];
      }
      j := j + 1;
    }
    assert list[..j] == list;
  }

  /** Every counter of `row` stands lowered by the support of `done`. */
  ghost predicate Lowered(c: Catalog, row0: seq<int>, row: seq<int>, done: set<nat>, d: nat) {
    |row| == |row0| && forall x :: 0 <= x < |row0| ==> row[x] == row0[x] - Support(c, done, d, x)
  }

  /** Lowering the counters once more for every module `m` allows is
      lowering them by the support of one more module. */
  lemma LowerStep(c: Catalog, row0: seq<int>, row: seq<int>, row1: seq<int>, done: set<nat>, m: nat, d: nat, list: seq<nat>)
    requires m !in done && Lowered(c, row0, row, done, d)
    requires forall x: nat :: x in list <==> Allows(c, m, d, x)
    requires |row1| == |row| && forall x :: 0 <= x < |row| ==> row1[x] == row[x] - (if x in list then 1 else 0)
    ensures Lowered(c, row0, row1, done + {m}, d)
  {
    forall x | 0 <= x < |row0| ensures row1[x] == row0[x] - Support(c, done + {m}, d, x) {
      SupportInsert(c, done, m, d, x);
    }
  }

  /** The candidates the list walk queues are the ones `m` empties. */
  lemma HitStep(c: Catalog, row0: seq<int>, row: seq<int>, done: set<nat>, m: nat, d: nat, list: seq<nat>, mods: set<nat>)
    requires Lowered(c, row0, row, done, d)
    requires forall x: nat :: x in list <==> Allows(c, m, d, x)
    ensures (set x | x in list && x in mods && x < |row| && row[x] == 1)
         == (set x | x in mods && x < |row0| && Allows(c, m, d, x) && row0[x] - Support(c, done, d, x) == 1)
  {
  }

  /** The module loop of `RemoveModules` toward one neighbour: the row of
      counters facing the cell is lowered by the support of `t`, and the
      neighbour's candidates whose support runs out are queued. The modules
      are taken in any order; the result does not depend on it. */
  method Withdraw(l: Layout, c: Catalog, row0: seq<int>, t: set<nat>, d: nat, mods: set<nat>,
                  q0: Q.QueueDict<Vec3, set<nat>>, key: Vec3)
    returns (row: seq<int>, q: Q.QueueDict<Vec3, set<nat>>)
    requires WellFormed(l, c) && d < DirCount(l)
    ensures row == Dropped(c, row0, t, d)
    ensures q == Enqueue(q0, key, Emptied(c, row0, t, d, mods))
  {
    row, q := row0, q0;
    var done: set<nat>, rest: set<nat>, hit: set<nat> := {}, t, {};
    while rest != {}
      invariant done + rest == t && done * rest == {}
      invariant Lowered(c, row0, row, done, d)
      invariant hit == Emptied(c, row0, done, d, mods)
      invariant q == Enqueue(q0, key, hit)
      decreases rest
    {
      var m :| m in rest;
      row, q, hit := WithdrawOne(l, c, row0, row, done, m, d, mods, q0, q, hit, key);
      done, rest := done + {m}, rest - {m};
    }
    assert done == t;
    LoweredIsDropped(c, row0, row, t, d);
  }

  /** Lowered by the support of all of `t` is `Dropped`. */
  lemma LoweredIsDropped(c: Catalog, row0: seq<int>, row: seq<int>, t: set<nat>, d: nat)
    requires Lowered(c, row0, row, t, d)
    ensures row == Dropped(c, row0, t, d)
  {
  }

  /** One turn of the module loop of `Withdraw`: module `m` withdraws its
      support. */
  method WithdrawOne(l: Layout, c: Catalog, row0: seq<int>, row: seq<int>, done: set<nat>, m: nat, d: nat, mods: set<nat>,
                     q0: Q.QueueDict<Vec3, set<nat>>, q: Q.QueueDict<Vec3, set<nat>>, hit: set<nat>, key: Vec3)
    returns (row1: seq<int>, q1: Q.QueueDict<Vec3, set<nat>>, hit1: set<nat>)
    requires WellFormed(l, c) && d < DirCount(l) && m !in done
    requires Lowered(c, row0, row, done, d) && hit == Emptied(c, row0, done, d, mods) && q == Enqueue(q0, key, hit)
    ensures Lowered(c, row0, row1, done + {m}, d)
    ensures hit1 == Emptied(c, row0, done + {m}, d, mods) && q1 == Enqueue(q0, key, hit1)
  {
    EmptiedStep(c, row0, done, m, d, mods);
    if m < |c.neighbours| && d < |c.neighbours[m]| {
      var list := c.neighbours[m][d];
      assert Listing(list, c.n);
      var h;
      row1, q1, h := WithdrawList(row, list, mods, q, key);
      LowerStep(c, row0, row, row1, done, m, d, list);
      HitStep(c, row0, row, done, m, d, list, mods);
      EnqueueUnion(q0, key, hit, h);
      hit1 := hit + h;
    } else {
      LowerStep(c, row0, row, row, done, m, d, []);
      row1, q1, hit1 := row, q, hit;
    }
  }

  /** The cells of a new periodic map, made position by position over
      the box: every module a candidate, each cell with its own copy of the
      initial counters. */
  method FreshCells(size: Vec3, modules: set<nat>, health: seq<seq<int>>) returns (m: map<Vec3, Cell>)
    requires size.x > 0 && size.z > 0
    ensures forall p :: p in m <==> InBox(size, p)
    ensures forall p :: p in m ==> m[p] == Cell(p, Some(modules), health, None)
  {
    var all := Enumerate(Vec3(0, 0, 0), size);
    assert all == Box(size.x, size.y, size.z);
    BoxShape(size.x, size.y, size.z);
    m := CellsAt(all, modules, health);
  }

  /** A full cell at each of the positions `all`. */
  method CellsAt(all: seq<Vec3>, modules: set<nat>, health: seq<seq<int>>) returns (m: map<Vec3, Cell>)
    ensures forall p :: p in m <==> p in all
    ensures forall p :: p in m ==> m[p] == Cell(p, Some(modules), health, None)
  {
    m := map[];
    var i := 0;
    while i < |all|
      invariant 0 <= i <= |all|
      invariant forall p :: p in m <==> p in all[..i]
      invariant forall p :: p in m ==> m[p] == Cell(p, Some(modules), health, None)
    {
      assert all[..i + 1] == all[..i] + [all[i]];
      m := m[all[i] := Cell(all[i], Some(modules), health, None)];
      i := i + 1;
    }
    assert all[..i] == all;
  }

  /** The innermost loop of `AddModules`: every module of `list` gains one
      supporter. */
  method RaiseList(row0: seq<int>, list: seq<nat>) returns (row: seq<int>)
    ensures row == Raised(row0, list)
  {
    row := row0;
    var j := 0;
    while j < |list|
      invariant 0 <= j <= |list| && |row| == |row0|
      invariant forall x :: 0 <= x < |row0| ==> row[x] == row0[x] + (if x in list[..j] then 1 else 0)
    {
      var x := list[j];
      assert list[..j + 1] == list[..j] + [x];
      if x < |row| && x !in list[..j] {
        row := row[x := row[x] + 1];
      }
      j := j + 1;
    }
    assert list[..j] == list;
  }

  /** A turn of `Undo` that fails ends it there. */
  lemma UndoStops(l: Layout, c: Catalog, g: Grid, goal: (State, Outcome), before: State, after: State, outcome: Outcome, n: int)
    requires n > 0 && before.history.size > 0 && |before.history.items| > 0
    requires goal == UndoSteps(l, c, g, before, n)
    requires (after, outcome) == UndoOne(l, c, g, before) && outcome != Ok
    ensures goal == (after, outcome)
  {
  }

  /** A turn of `Undo` that succeeds leaves the rest of the steps to do. */
  lemma UndoOn(l: Layout, c: Catalog, g: Grid, goal: (State, Outcome), before: State, after: State, n: int)
    requires n >= 0 && before.history.size > 0 && |before.history.items| > 0
    requires goal == UndoSteps(l, c, g, before, n + 1)
    requires (after, Ok) == UndoOne(l, c, g, before)
    ensures after.history.size > 0 && goal == UndoSteps(l, c, g, after, n)
  {
  }

  // ---------------------------------------------------------------------
  // The map.

  class Map {
    const layout: Layout
    const catalog: Catalog
    const kind: Kind
    /** `initialEntropy` / `InitialModuleHealth`. */
    const initial: seq<seq<int>>
    /** `ModuleSet.Entropy`, as a function of the candidates. */
    const entropy: set<nat> -> real
    /** `GetFace(d).walkable` of module `m`. */
    const walkable: (nat, nat) -> bool
    /** `Fits(d, connector)` of module `m`. */
    const fits: (nat, nat, int) -> bool
    /** The default column an unbounded map clones new cells from
        (`defaultMap`, `defaultColumn`): a periodic map one cell wide. */
    const column: Map?

    /** `rangeLimitCentre` and `rangeLimit` of an unbounded map. */
    var centre: Vec3
    var limit: int
    /** `muteRangeLimitWarning`. */
    var muted: bool
    var cells: map<Vec3, Cell>
    var queue: Q.QueueDict<Vec3, set<nat>>
    var history: R.Ring<Record>
    var workArea: Option<set<Vec3>>
    var built: seq<Vec3>
    var backtrack: int
    var backtrackBarrier: int

    /** The solver state the map holds. */
    function Current(): State
      reads this
    {
      State(cells, queue, history, workArea, built)
    }

    /** How the map resolves positions. */
    function GridOf(): Grid
      reads this, column
    {
      match kind
      case Periodic(size) => Tiled(size)
      case Unbounded(height) => Lazy(height, centre, limit, if column == null then map[] else column.cells)
    }

    /** The fields the propagation leaves alone. */
    function Settings(): (Vec3, int, bool, int, int)
      reads this
    {
      (centre, limit, muted, backtrack, backtrackBarrier)
    }

    /** What holds of the map's own fields between operations and in the
        middle of them: a well-formed catalog with its initial counters, a
        history of `HISTORY_SIZE`, and, for a periodic map, one cell for
        every position of the box. */
    ghost predicate Shape()
      reads this
    {
      && WellFormed(layout, catalog) && initial == InitialHealth(layout, catalog)
      && history.size == HistorySize(layout) && R.Inv(history)
      && (kind.Periodic? ==> column == null && HealthLaw.Whole(kind.size, cells))
    }

    /** An unbounded map owns a default column of its height, with the
        same catalog. */
    ghost predicate Owns()
      reads this, column
    {
      kind.Unbounded? ==>
        && column != null && column != this
        && column.kind == Periodic(Vec3(1, kind.height, 1))
        && column.layout == layout && column.catalog == catalog
        && column.Shape()
    }

    /** `Shape`, and an unbounded map owns a default column whose counters
        are the support they count. */
    ghost predicate Core()
      reads this, column
    {
      && Shape() && Owns()
      && (kind.Unbounded? ==> HealthLaw.Lawful(layout, catalog, column.kind.size, column.cells))
    }

    /** `Core`, and every counter of a periodic map is the support it counts. */
    ghost predicate Valid()
      reads this, column
    {
      Core() && (kind.Periodic? ==> HealthLaw.Lawful(layout, catalog, kind.size, cells))
    }

    /** `TileMap(size)` / `TilingMap(size)`: a full cell at every position of
        the box, each with every module as a candidate and its own copy of
        the initial counters. */
    constructor OfSize(l: Layout, c: Catalog, size: Vec3, entropy: set<nat> -> real,
                      walkable: (nat, nat) -> bool, fits: (nat, nat, int) -> bool)
      requires WellFormed(l, c) && size.x > 0 && size.z > 0 && size.y >= 0
      ensures Valid() && layout == l && catalog == c && kind == Periodic(size) && column == null
      ensures forall p :: p in cells <==> InBox(size, p)
      ensures forall p :: p in cells ==> cells[p] == Cell(p, Some(Below(c.n)), InitialHealth(l, c), None)
      ensures queue == Q.Empty() && history == R.Empty(HistorySize(l)) && workArea.None? && built == []
      ensures backtrack == 0 && backtrackBarrier == 0
    {
      var health := CreateEntropy(l, c);
      var m := FreshCells(size, Below(c.n), health);
      layout, catalog, kind, initial := l, c, Periodic(size), health;
      this.entropy, this.walkable, this.fits, column := entropy, walkable, fits, null;
      centre, limit, muted := Vec3(0, 0, 0), 80, false;
      cells, queue, history, workArea, built := m, Q.Empty(), R.Empty(HistorySize(l)), None, [];
      backtrack, backtrackBarrier := 0, 0;
      new;
      HealthLaw.FreshMapLawful(l, c, size, cells);
    }

    /** `InfiniteMap(height)`: no cells yet, a default column of the given
        height, and the range limit 80 around the origin. The source throws
        when the catalog is empty. */
    constructor OfHeight(l: Layout, c: Catalog, height: int, entropy: set<nat> -> real,
                          walkable: (nat, nat) -> bool, fits: (nat, nat, int) -> bool)
      requires WellFormed(l, c) && height >= 0 && c.n > 0
      ensures Valid() && layout == l && catalog == c && kind == Unbounded(height)
      ensures cells == map[] && centre == Vec3(0, 0, 0) && limit == 80 && !muted
      ensures fresh(column) && column.cells.Keys == set y | 0 <= y < height :: Vec3(0, y, 0)
      ensures queue == Q.Empty() && history == R.Empty(HistorySize(l)) && workArea.None? && built == []
    {
      var health := CreateEntropy(l, c);
      var col := new Map.OfSize(l, c, Vec3(1, height, 1), entropy, walkable, fits);
      forall p | p in col.cells ensures p.x == 0 && p.z == 0 && 0 <= p.y < height {
        assert InBox(Vec3(1, height, 1), p);
      }
      forall y | 0 <= y < height ensures Vec3(0, y, 0) in col.cells {
        assert InBox(Vec3(1, height, 1), Vec3(0, y, 0));
      }
      layout, catalog, kind, initial := l, c, Unbounded(height), health;
      this.entropy, this.walkable, this.fits, column := entropy, walkable, fits, col;
      centre, limit, muted := Vec3(0, 0, 0), 80, false;
      cells, queue, history, workArea, built := map[], Q.Empty(), R.Empty(HistorySize(l)), None, [];
      backtrack, backtrackBarrier := 0, 0;
    }

    /** `GetCell` of a periodic map (TileMap.cs, TilingMap.cs): null above
        and below the box, otherwise the cell at the position wrapped into
        the box. */
    function Lookup(p: Vec3): (r: Option<Vec3>)
      reads this
      requires Shape() && kind.Periodic?
      ensures r == TiledCell(kind.size, cells, p)
      ensures r.Some? <==> 0 <= p.y < kind.size.y
    {
      HealthLaw.LookupIsLocate(kind.size, cells, p);
      LocateInBox(kind.size, p);
      if p.y < 0 || p.y >= kind.size.y then None
      else Some(Vec3(Wrap(p.x, kind.size.x), p.y, Wrap(p.z, kind.size.z)))
    }

    /** `GetCell` / `GetSlot`. An unbounded map hands out null above and
        below its height and beyond the range limit, and otherwise creates a
        missing cell on first use as a copy of the default column's cell at
        the same height. */
    method GetCell(p: Vec3) returns (q: Option<Vec3>)
      requires Core()
      modifies this
      ensures Core() && Settings() == old(Settings()) && GridOf() == old(GridOf())
      ensures (cells, q) == Resolve(GridOf(), old(cells), p)
      ensures Current() == old(Current()).(cells := cells)
      ensures kind.Periodic? ==> cells == old(cells)
    {
      match kind
      case Periodic(size) =>
        q := Lookup(p);
      case Unbounded(height) =>
        if p.y >= height || p.y < 0 {
          return None;
        }
        if p in cells {
          return Some(p);
        }
        if IsOutOfRange(p, centre, limit) {
          return None;
        }
        var proto := column.Lookup(p);
        if proto.None? {
          return None;
        }
        var c := column.cells[proto.value];
        cells := cells[p := Cell(p, c.modules, c.health, None)];
        q := Some(p);
    }

    /** `IsCellInitialized` / `IsSlotInitialized`. */
    predicate IsCellInitialized(p: Vec3)
      reads this
    {
      p in cells
    }

    /** `GetDefaultCell` / `GetDefaultSlot`: the default column's cell at
        height `y`, null outside the height. */
    function DefaultCell(y: int): (r: Option<Vec3>)
      reads this, column
      requires Valid() && kind.Unbounded?
      ensures r.Some? <==> 0 <= y < kind.height
      ensures r.Some? ==> r.value == Vec3(0, y, 0) && r.value in column.cells
    {
      column.Lookup(Vec3(0, y, 0))
    }

    /** `IsOutOfRange` / `IsOutsideOfRangeLimit`. */
    predicate OutOfRange(p: Vec3)
      reads this
    {
      IsOutOfRange(p, centre, limit)
    }

    /** `OnHitRangeLimit`: the editor's warning, given once per map, for a
        position within the height. */
    method OnHitRangeLimit(p: Vec3)
      requires Valid() && kind.Unbounded?
      modifies this
      ensures Valid() && Current() == old(Current())
      ensures (centre, limit, backtrack, backtrackBarrier) == old((centre, limit, backtrack, backtrackBarrier))
      ensures muted == (old(muted) || 0 <= p.y < kind.height)
    {
      if muted || p.y < 0 || p.y >= kind.height {
        return;
      }
      muted := true;
    }

    /** `CopyInititalEntropy`: a fresh copy of the initial counters, one per
        direction and module: the support every module has from a full
        neighbour. */
    function CopyInitialEntropy(): (h: seq<seq<int>>)
      reads this
      requires Shape()
      ensures |h| == DirCount(layout)
      ensures forall d, x :: 0 <= d < DirCount(layout) && 0 <= x < catalog.n ==>
        |h[d]| == catalog.n && h[d][x] == Support(catalog, Below(catalog.n), Opp(layout, d), x)
    {
      initial
    }

    /** `GetAllCells` / `GetAllSlots`: a periodic map lists its box in
        x-then-y-then-z order, an unbounded map its cells, each once. */
    method GetAllCells() returns (all: seq<Vec3>)
      requires Valid()
      ensures forall p :: p in all <==> p in cells
      ensures forall i, j :: 0 <= i < j < |all| ==> all[i] != all[j]
      ensures kind.Periodic? ==> all == Box(kind.size.x, kind.size.y, kind.size.z)
    {
      match kind
      case Periodic(size) =>
        all := Enumerate(Vec3(0, 0, 0), size);
        assert all == Box(size.x, size.y, size.z);
        BoxShape(size.x, size.y, size.z);
        forall i, j | 0 <= i < j < |all| ensures all[i] != all[j] {
          AscendingDistinct(all, i, j);
        }
      case Unbounded(_) =>
        all := [];
        var rest := cells.Keys;
        while rest != {}
          invariant forall p :: p in cells <==> p in all || p in rest
          invariant forall p :: p in all ==> p !in rest
          invariant forall i, j :: 0 <= i < j < |all| ==> all[i] != all[j]
          decreases rest
        {
          var p :| p in rest;
          all, rest := all + [p], rest - {p};
        }
    }

    /** `NotifyCollapsed` / `NotifySlotCollapsed`. */
    method NotifyCollapsed(p: Vec3)
      requires Core()
      modifies this
      ensures Core() && Settings() == old(Settings())
      ensures Current() == old(Current()).(workArea := Settled(old(workArea), p), built := old(built) + [p])
    {
      if workArea.Some? {
        workArea := Some(workArea.value - {p});
      }
      built := built + [p];
    }

    /** `NotifyCollapseUndone` / `NotifySlotCollapseUndone`. */
    method NotifyCollapseUndone(p: Vec3)
      requires Core()
      modifies this
      ensures Core() && Settings() == old(Settings())
      ensures Current() == old(Current()).(workArea := Reopened(old(workArea), p))
    {
      if workArea.Some? {
        workArea := Some(workArea.value + {p});
      }
    }

    /** `Forget`: the cell drops its candidates and its counters. */
    method Forget(p: Vec3)
      requires Core() && p in cells
      modifies this
      ensures Core() && Settings() == old(Settings()) && (old(Valid()) ==> Valid())
      ensures Current() == old(Current()).(cells := old(cells)[p := Forgotten(old(cells)[p])])
    {
      if kind.Periodic? && HealthLaw.Lawful(layout, catalog, kind.size, cells) {
        HealthLaw.LawIgnoresForgotten(layout, catalog, kind.size, cells, p);
      }
      cells := cells[p := Forgotten(cells[p])];
    }

    // -------------------------------------------------------------------
    // Removing candidates.

    /** One turn of the direction loop of `RemoveModules`: the removed
        modules `t` stop supporting the candidates of the neighbour in
        direction `i`; a null or forgotten neighbour is skipped. */
    method Toward(p: Vec3, t: set<nat>, i: nat)
      requires Core() && i < DirCount(layout)
      modifies this
      ensures Core() && Settings() == old(Settings()) && GridOf() == old(GridOf())
      ensures Current() == DropToward(layout, catalog, GridOf(), old(Current()), p, t, i)
    {
      var q := GetCell(Step(layout, p, i));
      var o := Opp(layout, i);
      if q.None? || !Live(cells[q.value]) || o >= |cells[q.value].health| {
        return;
      }
      var nb := cells[q.value];
      var row, q1 := Withdraw(layout, catalog, nb.health[o], t, i, nb.modules.value, queue, q.value);
      cells := cells[q.value := nb.(health := nb.health[o := row])];
      queue := q1;
    }

    /** `RemoveModules(s, false)`: the modules removed are `s` cut down to
        the candidates; they are recorded in the top history record, taken
        from the neighbours' counters, and then from the candidates. */
    method RemoveOnceAt(p: Vec3, s: set<nat>) returns (removed: set<nat>, outcome: Outcome)
      requires Core()
      modifies this
      ensures Core() && Settings() == old(Settings()) && GridOf() == old(GridOf())
      ensures (Current(), removed, outcome) == RemoveOnce(layout, catalog, GridOf(), old(Current()), p, s)
    {
      ghost var g, st0 := GridOf(), Current();
      if p !in cells || !Live(cells[p]) {
        return {}, Fault;
      }
      removed := s * cells[p].modules.value;
      history := RecordRemoval(history, p, removed);
      Spread(p, removed);
      var cell := cells[p];
      var left := cell.modules.value - removed;
      cells := cells[p := cell.(modules := Some(left))];
      outcome := if left == {} then Contradiction else Ok;
    }

    /** The direction loop of `RemoveModules`: every neighbour loses the
        support of the removed modules `t`. */
    method Spread(p: Vec3, t: set<nat>)
      requires Core()
      modifies this
      ensures Core() && Settings() == old(Settings()) && GridOf() == old(GridOf())
      ensures Current() == DropDirs(layout, catalog, GridOf(), old(Current()), p, t, 0)
    {
      ghost var g, st0 := GridOf(), Current();
      var i := 0;
      while i < DirCount(layout)
        invariant 0 <= i <= DirCount(layout)
        invariant Core() && Settings() == old(Settings()) && GridOf() == g
        invariant DropDirs(layout, catalog, g, st0, p, t, 0) == DropDirs(layout, catalog, g, Current(), p, t, i)
      {
        Toward(p, t, i);
        i := i + 1;
      }
    }

    /** One turn of `FinishRemovalQueue`: the front entry is dequeued and
        its cell, unless collapsed, loses the queued modules. */
    method Turn() returns (outcome: Outcome)
      requires Core() && queue.queue != []
      modifies this
      ensures Core() && Settings() == old(Settings()) && GridOf() == old(GridOf())
      ensures (Current(), outcome) == FinishTurn(layout, catalog, GridOf(), old(Current()))
    {
      var key := queue.queue[0];
      var s := if key in queue.dict then queue.dict[key] else {};
      queue := Q.QueueDict(queue.queue[1..], queue.dict - {key});
      var q := GetCell(key);
      if q.None? {
        return Fault;
      }
      if cells[q.value].chosen.Some? {
        return Ok;
      }
      var removed;
      removed, outcome := RemoveOnceAt(q.value, s);
    }

    /** `FinishRemovalQueue`, for at most `fuel` turns. */
    method FinishRemovalQueue(fuel: nat) returns (outcome: Outcome)
      requires Core()
      modifies this
      ensures Core() && Settings() == old(Settings()) && GridOf() == old(GridOf())
      ensures (Current(), outcome) == Finish(layout, catalog, GridOf(), old(Current()), fuel)
      ensures old(Valid()) ==> Valid()
    {
      ghost var g := GridOf();
      ghost var goal := Finish(layout, catalog, g, Current(), fuel);
      var f := fuel;
      while queue.queue != [] && f > 0
        invariant Core() && Settings() == old(Settings()) && GridOf() == g
        invariant goal == Finish(layout, catalog, g, Current(), f)
        invariant old(Valid()) ==> Valid()
        decreases f
      {
        outcome, f := DrainTurn(goal, f);
        if outcome != Ok {
          return;
        }
      }
      outcome := if queue.queue == [] then Ok else OutOfFuel;
      DrainDone(layout, catalog, g, goal, Current(), f);
    }

    /** A turn of the drain, with what it leaves of the drain to do. */
    method DrainTurn(ghost goal: (State, Outcome), f: nat) returns (outcome: Outcome, rest: nat)
      requires Core() && queue.queue != [] && f > 0
      requires goal == Finish(layout, catalog, GridOf(), Current(), f)
      modifies this
      ensures Core() && Settings() == old(Settings()) && GridOf() == old(GridOf())
      ensures rest == f - 1
      ensures outcome != Ok ==> goal == (Current(), outcome)
      ensures outcome == Ok ==> goal == Finish(layout, catalog, GridOf(), Current(), rest)
      ensures old(Valid()) ==> Valid()
    {
      ghost var g, before := GridOf(), Current();
      ghost var valid := Valid();
      outcome := Turn();
      rest := f - 1;
      if valid && kind.Periodic? {
        HealthLaw.TurnKeepsLaw(layout, catalog, kind.size, before, Current());
      }
      if outcome != Ok {
        DrainStops(layout, catalog, g, goal, before, Current(), outcome, f);
      } else {
        DrainOn(layout, catalog, g, goal, before, Current(), rest);
      }
    }

    /** `RemoveModules(s, recursive)`. */
    method RemoveModules(p: Vec3, s: set<nat>, recursive: bool, fuel: nat) returns (removed: set<nat>, outcome: Outcome)
      requires Valid()
      modifies this
      ensures Valid() && Settings() == old(Settings()) && GridOf() == old(GridOf())
      ensures (Current(), removed, outcome) == Remove(layout, catalog, GridOf(), old(Current()), p, s, recursive, fuel)
    {
      ghost var st0 := Current();
      removed, outcome := RemoveOnceAt(p, s);
      if kind.Periodic? {
        HealthLaw.RemoveKeepsLaw(layout, catalog, kind.size, st0, p, s);
      }
      if outcome == Ok && recursive {
        outcome := FinishRemovalQueue(fuel);
      }
    }

    // -------------------------------------------------------------------
    // Narrowing.

    /** The cell the map hands out for `p` loses, with a drain, every
        candidate that misses the demand; a null or forgotten cell
        faults. */
    method Narrow(p: Vec3, dm: Demand, fuel: nat) returns (outcome: Outcome)
      requires Valid()
      modifies this
      ensures Valid() && Settings() == old(Settings()) && GridOf() == old(GridOf())
      ensures (Current(), outcome) == Narrowed(layout, catalog, GridOf(), old(Current()), p, walkable, fits, dm, fuel)
    {
      var q := GetCell(p);
      if q.None? || !Live(cells[q.value]) {
        return Fault;
      }
      var removed;
      removed, outcome := RemoveModules(q.value, Rejected(cells[q.value].modules.value, walkable, fits, dm), true, fuel);
    }

    /** `Enforce(start, direction)` / `EnforceWalkway(start, direction)`:
        the cell keeps the candidates whose face in direction `d` is
        walkable. */
    method Enforce(p: Vec3, d: nat, fuel: nat) returns (outcome: Outcome)
      requires Valid()
      modifies this
      ensures Valid() && Settings() == old(Settings()) && GridOf() == old(GridOf())
      ensures (Current(), outcome) == Narrowed(layout, catalog, GridOf(), old(Current()), p, walkable, fits, Walkway(d), fuel)
    {
      outcome := Narrow(p, Walkway(d), fuel);
    }

    /** `GetCell(p).EnforceConnector(direction, connector)`: the cell keeps
        the candidates that fit the connector in direction `d`. */
    method EnforceConnector(p: Vec3, d: nat, connector: int, fuel: nat) returns (outcome: Outcome)
      requires Valid()
      modifies this
      ensures Valid() && Settings() == old(Settings()) && GridOf() == old(GridOf())
      ensures (Current(), outcome) == Narrowed(layout, catalog, GridOf(), old(Current()), p, walkable, fits, Connector(d, connector, true), fuel)
    {
      outcome := Narrow(p, Connector(d, connector, true), fuel);
    }

    /** `GetCell(p).ExcludeConnector(direction, connector)`: the cell keeps
        the candidates that do not fit the connector in direction `d`. */
    method ExcludeConnector(p: Vec3, d: nat, connector: int, fuel: nat) returns (outcome: Outcome)
      requires Valid()
      modifies this
      ensures Valid() && Settings() == old(Settings()) && GridOf() == old(GridOf())
      ensures (Current(), outcome) == Narrowed(layout, catalog, GridOf(), old(Current()), p, walkable, fits, Connector(d, connector, false), fuel)
    {
      outcome := Narrow(p, Connector(d, connector, false), fuel);
    }

    /** `Enforce(start, destination)` / `EnforceWalkway(start, destination)`:
        a walkway on the start toward the destination, then on the
        destination back toward the start. */
    method EnforceWalkway(start: Vec3, dest: Vec3, fuel: nat) returns (outcome: Outcome)
      requires Valid()
      modifies this
      ensures Valid() && Settings() == old(Settings()) && GridOf() == old(GridOf())
      ensures (Current(), outcome) == WalkwayBetween(layout, catalog, GridOf(), old(Current()), start, dest, walkable, fits, fuel)
    {
      var d := WalkwayIndex(layout, Sub(dest, start));
      outcome := Enforce(start, d, fuel);
      if outcome != Ok {
        return;
      }
      outcome := Enforce(dest, Opp(layout, d), fuel);
    }

    /** The cells of `aims` narrowed in order, up to the first narrowing
        that does not succeed. */
    method NarrowEach(aims: seq<(Vec3, Demand)>, fuel: nat) returns (outcome: Outcome)
      requires Valid()
      modifies this
      ensures Valid() && Settings() == old(Settings()) && GridOf() == old(GridOf())
      ensures (Current(), outcome) == NarrowAll(layout, catalog, GridOf(), old(Current()), walkable, fits, aims, fuel)
    {
      ghost var g := GridOf();
      ghost var goal := NarrowAll(layout, catalog, g, Current(), walkable, fits, aims, fuel);
      var rest := aims;
      while rest != []
        invariant Valid() && Settings() == old(Settings()) && GridOf() == g
        invariant goal == NarrowAll(layout, catalog, g, Current(), walkable, fits, rest, fuel)
        decreases |rest|
      {
        outcome := Narrow(rest[0].0, rest[0].1, fuel);
        if outcome != Ok {
          return;
        }
        rest := rest[1..];
      }
      outcome := Ok;
    }

    /** The constraint loop of `ApplyConstraints` on the map whose cells
        the constraints narrow, for constraints aimed as a map of kind
        `owner` aims them. */
    method NarrowConstraints(owner: Kind, cs: seq<Constraint>, fuel: nat) returns (outcome: Outcome)
      requires Valid()
      modifies this
      ensures Valid() && Settings() == old(Settings()) && GridOf() == old(GridOf())
      ensures (Current(), outcome) == NarrowAll(layout, catalog, GridOf(), old(Current()), walkable, fits, Aims(layout, owner, cs), fuel)
    {
      ghost var g := GridOf();
      ghost var goal := NarrowAll(layout, catalog, g, Current(), walkable, fits, Aims(layout, owner, cs), fuel);
      var rest := cs;
      while rest != []
        invariant Valid() && Settings() == old(Settings()) && GridOf() == g
        invariant goal == NarrowAll(layout, catalog, g, Current(), walkable, fits, Aims(layout, owner, rest), fuel)
        decreases |rest|
      {
        var aims := ConstraintAims(layout, owner, rest[0]);
        NarrowAllAppend(layout, catalog, g, Current(), walkable, fits, aims, Aims(layout, owner, rest[1..]), fuel);
        outcome := NarrowEach(aims, fuel);
        if outcome != Ok {
          return;
        }
        rest := rest[1..];
      }
      outcome := Ok;
    }

    /** `ApplyConstraints` (TileMap.cs, MapGeneration/InfiniteMap.cs) and
        `ApplyBoundaryConstraints` (TilingMap.cs, InfiniteMap.cs): each
        constraint in turn narrows the cells it aims at (`ConstraintAims`);
        a contradiction or a fault ends the run. A periodic map narrows its
        own cells, a lazy map the cells of its default column. */
    method ApplyConstraints(cs: seq<Constraint>, fuel: nat) returns (outcome: Outcome)
      requires Valid()
      modifies this, column
      ensures Valid() && Settings() == old(Settings())
      ensures kind.Periodic? ==>
        (Current(), outcome) == NarrowAll(layout, catalog, GridOf(), old(Current()), walkable, fits, Aims(layout, kind, cs), fuel)
      ensures kind.Unbounded? ==>
        && Current() == old(Current())
        && (column.Current(), outcome) == NarrowAll(layout, catalog, column.GridOf(), old(column.Current()),
                                                    column.walkable, column.fits, Aims(layout, kind, cs), fuel)
    {
      if kind.Periodic? {
        outcome := NarrowConstraints(kind, cs, fuel);
      } else {
        outcome := column.NarrowConstraints(kind, cs, fuel);
      }
    }

    // -------------------------------------------------------------------
    // Adding candidates back.

    /** One turn of the direction loop of `AddModules`: module `m` at `p`
        supports again what it allows next to it in direction `i`; a null
        or forgotten neighbour is skipped. */
    method Restore(p: Vec3, m: nat, i: nat)
      requires Core() && i < DirCount(layout)
      modifies this
      ensures Core() && Settings() == old(Settings()) && GridOf() == old(GridOf())
      ensures Current() == old(Current()).(cells := RaiseToward(layout, catalog, GridOf(), old(cells), p, m, i))
    {
      var q := GetCell(Step(layout, p, i));
      var o := Opp(layout, i);
      if q.None? || !Live(cells[q.value]) || o >= |cells[q.value].health|
         || m >= |catalog.neighbours| || i >= |catalog.neighbours[m]| {
        return;
      }
      var nb := cells[q.value];
      var row := RaiseList(nb.health[o], catalog.neighbours[m][i]);
      cells := cells[q.value := nb.(health := nb.health[o := row])];
    }

    /** The direction loop of `AddModules` for module `m`. */
    method RestoreAll(p: Vec3, m: nat)
      requires Core()
      modifies this
      ensures Core() && Settings() == old(Settings()) && GridOf() == old(GridOf())
      ensures Current() == old(Current()).(cells := RaiseDirs(layout, catalog, GridOf(), old(cells), p, m, 0))
    {
      ghost var g, st0 := GridOf(), Current();
      var i := 0;
      while i < DirCount(layout)
        invariant 0 <= i <= DirCount(layout)
        invariant Core() && Settings() == old(Settings()) && GridOf() == g
        invariant Current() == st0.(cells := cells)
        invariant RaiseDirs(layout, catalog, g, st0.cells, p, m, 0) == RaiseDirs(layout, catalog, g, cells, p, m, i)
      {
        Restore(p, m, i);
        i := i + 1;
      }
    }

    /** The module loop of `AddModules`, in ascending module order: every
        module of `s` that is neither a candidate nor the chosen module
        supports its neighbours again and becomes a candidate. */
    method AddEachAt(p: Vec3, s: set<nat>)
      requires Core() && p in cells && Live(cells[p])
      modifies this
      ensures Core() && Settings() == old(Settings()) && GridOf() == old(GridOf())
      ensures Current() == old(Current()).(cells := AddEach(layout, catalog, GridOf(), old(cells), p, s, 0))
    {
      ghost var g, st0 := GridOf(), Current();
      var m := 0;
      while m < catalog.n
        invariant Core() && Settings() == old(Settings()) && GridOf() == g
        invariant Current() == st0.(cells := cells)
        invariant p in cells && Live(cells[p])
        invariant AddEach(layout, catalog, g, st0.cells, p, s, 0) == AddEach(layout, catalog, g, cells, p, s, m)
        decreases catalog.n - m
      {
        AddTurnAt(p, s, m);
        m := m + 1;
      }
    }

    /** One turn of the module loop of `AddModules`: module `m` is added
        back if it is in `s` and neither a candidate nor the chosen module. */
    method AddTurnAt(p: Vec3, s: set<nat>, m: nat)
      requires Core() && p in cells && Live(cells[p])
      modifies this
      ensures Core() && Settings() == old(Settings()) && GridOf() == old(GridOf())
      ensures p in cells && Live(cells[p])
      ensures Current() == old(Current()).(cells := AddTurn(layout, catalog, GridOf(), old(cells), p, s, m))
    {
      if m in s && m !in cells[p].modules.value && cells[p].chosen != Some(m) {
        AddOne(p, m);
      }
    }

    /** One turn of the module loop of `AddModules`: module `m` supports its
        neighbours again and becomes a candidate. */
    method AddOne(p: Vec3, m: nat)
      requires Core() && p in cells && Live(cells[p])
      modifies this
      ensures Core() && Settings() == old(Settings()) && GridOf() == old(GridOf())
      ensures p in cells && Live(cells[p])
      ensures Current() == old(Current()).(cells := Added(layout, catalog, GridOf(), old(cells), p, m))
    {
      RestoreAll(p, m);
      var cell := cells[p];
      cells := cells[p := cell.(modules := Some(cell.modules.value + {m}))];
    }

    /** `AddModules(s)` without the class invariant's counters law. */
    method AddBackAt(p: Vec3, s: set<nat>) returns (outcome: Outcome)
      requires Core()
      modifies this
      ensures Core() && Settings() == old(Settings()) && GridOf() == old(GridOf())
      ensures (Current(), outcome) == AddBack(layout, catalog, GridOf(), old(Current()), p, s)
    {
      if p !in cells {
        return Fault;
      }
      if !Live(cells[p]) {
        outcome := if s * Below(catalog.n) != {} || cells[p].chosen.Some? then Fault else Ok;
        return;
      }
      AddEachAt(p, s);
      var cell := cells[p];
      if cell.chosen.Some? && cell.modules.value != {} {
        cells := cells[p := cell.(chosen := None)];
        workArea := Reopened(workArea, p);
      }
      outcome := Ok;
    }

    /** `AddModules(s)`: the cell regains the modules of `s` it had lost,
        and a collapsed cell that has candidates again is reopened. */
    method AddModules(p: Vec3, s: set<nat>) returns (outcome: Outcome)
      requires Valid()
      modifies this
      ensures Valid() && Settings() == old(Settings()) && GridOf() == old(GridOf())
      ensures (Current(), outcome) == AddBack(layout, catalog, GridOf(), old(Current()), p, s)
    {
      ghost var st0 := Current();
      outcome := AddBackAt(p, s);
      if kind.Periodic? {
        HealthLaw.AddBackKeepsLaw(layout, catalog, kind.size, st0, p, s);
      }
    }

    // -------------------------------------------------------------------
    // Collapsing.

    /** The first half of `Collapse(module)` on an open cell: the cell of
        the record the push evicts is forgotten (`SavedCell`), the fresh
        record is pushed and the module chosen. */
    method Open(p: Vec3, m: nat)
      requires Core() && p in cells
      modifies this
      ensures Core() && Settings() == old(Settings()) && GridOf() == old(GridOf())
      ensures Current() == Opened(old(Current()), p, m)
    {
      var ev := R.Evicted(history);
      if ev.Some? && ev.value.cell in cells {
        Forget(ev.value.cell);
      }
      R.PushPopKeepInv(history, Record(p, [], map[]));
      history := R.Pushed(history, Record(p, [], map[]));
      cells := cells[p := cells[p].(chosen := Some(m))];
    }

    /** `Collapse(module)` without the class invariant's counters law. */
    method CollapseAt(p: Vec3, m: nat, fuel: nat) returns (outcome: Outcome)
      requires Core()
      modifies this
      ensures Core() && Settings() == old(Settings()) && GridOf() == old(GridOf())
      ensures (Current(), outcome) == CollapseTo(layout, catalog, GridOf(), old(Current()), p, m, fuel)
      ensures old(Valid()) ==> Valid()
    {
      if p !in cells {
        return Fault;
      }
      if cells[p].chosen.Some? {
        return Ok;
      }
      ghost var valid, st0 := Valid(), Current();
      Open(p, m);
      if valid && kind.Periodic? {
        HealthLaw.OpenedKeepsLaw(layout, catalog, kind.size, st0, p, m);
      }
      if !Live(cells[p]) {
        return Fault;
      }
      var removed;
      ghost var st1 := Current();
      removed, outcome := RemoveOnceAt(p, cells[p].modules.value - {m});
      if valid && kind.Periodic? {
        HealthLaw.RemoveKeepsLaw(layout, catalog, kind.size, st1, p, st1.cells[p].modules.value - {m});
      }
      if outcome == Ok {
        outcome := FinishRemovalQueue(fuel);
      }
      if outcome == Ok {
        NotifyCollapsed(p);
      }
    }

    /** `Collapse(module)`: see `Propagation.CollapseChooses` for what it
        promises. */
    method Collapse(p: Vec3, m: nat, fuel: nat) returns (outcome: Outcome)
      requires Valid()
      modifies this
      ensures Valid() && Settings() == old(Settings()) && GridOf() == old(GridOf())
      ensures (Current(), outcome) == CollapseTo(layout, catalog, GridOf(), old(Current()), p, m, fuel)
    {
      outcome := CollapseAt(p, m, fuel);
    }

    /** `CollapseRandom`: a cell without candidates is a contradiction, a
        collapsed one a fault; otherwise the cell collapses to one of its
        candidates, picked by the weighted roll. */
    method CollapseRandom(p: Vec3, fuel: nat) returns (m: nat, outcome: Outcome)
      requires Valid()
      modifies this
      ensures Valid() && Settings() == old(Settings()) && GridOf() == old(GridOf())
      ensures p !in old(cells) || !Live(old(cells)[p]) ==> outcome == Fault && Current() == old(Current())
      ensures p in old(cells) && Live(old(cells)[p]) && old(cells)[p].modules.value == {} ==>
        outcome == Contradiction && Current() == old(Current())
      ensures p in old(cells) && Live(old(cells)[p]) && old(cells)[p].modules.value != {} ==>
        if old(cells)[p].chosen.Some? then outcome == Fault && Current() == old(Current())
        else m in old(cells)[p].modules.value
             && (Current(), outcome) == CollapseTo(layout, catalog, GridOf(), old(Current()), p, m, fuel)
    {
      if p !in cells || !Live(cells[p]) {
        return 0, Fault;
      }
      if cells[p].modules.value == {} {
        return 0, Contradiction;
      }
      if cells[p].chosen.Some? {
        return 0, Fault;
      }
      m :| m in cells[p].modules.value;
      outcome := Collapse(p, m, fuel);
    }

    // -------------------------------------------------------------------
    // Undoing.

    /** The key loop of `Undo` over one record. */
    method UndoKeysAt(rec: Record) returns (outcome: Outcome)
      requires Core()
      modifies this
      ensures Core() && Settings() == old(Settings()) && GridOf() == old(GridOf())
      ensures (Current(), outcome) == UndoKeys(layout, catalog, GridOf(), old(Current()), rec, 0)
    {
      ghost var g := GridOf();
      ghost var goal := UndoKeys(layout, catalog, g, Current(), rec, 0);
      var i := 0;
      outcome := Ok;
      while i < |rec.keys|
        invariant 0 <= i <= |rec.keys|
        invariant Core() && Settings() == old(Settings()) && GridOf() == g
        invariant outcome == Ok && goal == UndoKeys(layout, catalog, g, Current(), rec, i)
        decreases |rec.keys| - i
      {
        outcome, i := UndoKey(goal, rec, i);
        if outcome != Ok {
          return;
        }
      }
    }

    /** One turn of the key loop of `Undo`: the cell of key `i` regains the
        modules the record took from it; a null cell faults. */
    method UndoKey(ghost goal: (State, Outcome), rec: Record, i: nat) returns (outcome: Outcome, next: nat)
      requires Core() && i < |rec.keys|
      requires goal == UndoKeys(layout, catalog, GridOf(), Current(), rec, i)
      modifies this
      ensures Core() && Settings() == old(Settings()) && GridOf() == old(GridOf())
      ensures next == i + 1 && next <= |rec.keys|
      ensures outcome != Ok ==> goal == (Current(), outcome)
      ensures outcome == Ok ==> goal == UndoKeys(layout, catalog, GridOf(), Current(), rec, next)
    {
      next := i + 1;
      var key := rec.keys[i];
      var q := GetCell(key);
      if q.None? {
        return Fault, next;
      }
      outcome := AddBackAt(q.value, if key in rec.removed then rec.removed[key] else {});
    }

    /** One turn of `Undo`: the top record is popped, the removals it holds
        are added back, and its cell is reopened. */
    method UndoLast() returns (outcome: Outcome)
      requires Core() && |history.items| > 0
      modifies this
      ensures Core() && Settings() == old(Settings()) && GridOf() == old(GridOf())
      ensures (Current(), outcome) == UndoOne(layout, catalog, GridOf(), old(Current()))
    {
      var rec := history.items[|history.items| - 1];
      R.PushPopKeepInv(history, rec);
      history := R.Popped(history);
      outcome := UndoKeysAt(rec);
      if outcome != Ok {
        return;
      }
      if rec.cell !in cells {
        return Fault;
      }
      cells := cells[rec.cell := cells[rec.cell].(chosen := None)];
      workArea := Reopened(workArea, rec.cell);
    }

    /** `Undo(steps)`: up to `steps` records are undone, newest first; an
        emptied history also resets the backtracking barrier. */
    method Undo(steps: int) returns (outcome: Outcome)
      requires Valid()
      modifies this
      ensures Valid() && GridOf() == old(GridOf())
      ensures (centre, limit, muted, backtrack) == old((centre, limit, muted, backtrack))
      ensures (Current(), outcome) == UndoSteps(layout, catalog, GridOf(), old(Current()), steps)
      ensures backtrackBarrier == if outcome == Ok && history.items == [] then 0 else old(backtrackBarrier)
    {
      ghost var g, st0 := GridOf(), Current();
      ghost var goal := UndoSteps(layout, catalog, g, st0, steps);
      var n := steps;
      while n > 0 && |history.items| > 0
        invariant Core() && Settings() == old(Settings()) && GridOf() == g
        invariant goal == UndoSteps(layout, catalog, g, Current(), n)
        decreases if n > 0 then n else 0
      {
        ghost var before := Current();
        outcome := UndoLast();
        if outcome != Ok {
          UndoStops(layout, catalog, g, goal, before, Current(), outcome, n);
          LawAfterUndo(st0, steps);
          return;
        }
        n := n - 1;
        UndoOn(layout, catalog, g, goal, before, Current(), n);
      }
      outcome := Ok;
      assert goal == (Current(), Ok);
      if history.items == [] {
        backtrackBarrier := 0;
      }
      LawAfterUndo(st0, steps);
    }

    // -------------------------------------------------------------------
    // Collapsing an area.

    /** The work area of `Collapse(targets)`: the cells the map hands out
        for the targets, in order, that are not collapsed. The ghost result
        is every non-null cell handed out. */
    method GatherWorkArea(targets: seq<Vec3>) returns (ghost handed: set<Vec3>)
      requires Valid()
      modifies this
      ensures Valid() && Settings() == old(Settings()) && GridOf() == old(GridOf())
      ensures workArea.Some? && (cells, handed, workArea.value) == Gather(GridOf(), old(cells), targets, {}, {})
      ensures Current() == old(Current()).(cells := cells, workArea := workArea)
    {
      ghost var g := GridOf();
      ghost var goal := Gather(g, cells, targets, {}, {});
      var rest := targets;
      var area: set<Vec3> := {};
      handed := {};
      while rest != []
        invariant Valid() && Settings() == old(Settings()) && GridOf() == g
        invariant Current() == old(Current()).(cells := cells)
        invariant goal == Gather(g, cells, rest, handed, area)
        decreases |rest|
      {
        var q := GetCell(rest[0]);
        if q.Some? {
          handed := handed + {q.value};
          if cells[q.value].chosen.None? {
            area := area + {q.value};
          }
        }
        rest := rest[1..];
      }
      workArea := Some(area);
    }

    /** The selection loop of `Collapse(targets)`: a cell of the work area
        with the least entropy, the first met in the set's order winning a
        tie. A forgotten cell has no candidates to weigh and faults. A cell
        with no candidates has the entropy NaN, which is never less than
        the minimum so far, so it is never selected; when every cell is
        such a cell nothing is selected, and the source's call on the null
        selection faults. */
    method SelectMinEntropy() returns (selected: Option<Vec3>)
      requires workArea.Some? && workArea.value != {}
      ensures selected.None? <==>
        || (exists q :: q in workArea.value && (q !in cells || !Live(cells[q])))
        || (forall q :: q in workArea.value && q in cells && Live(cells[q]) ==> cells[q].modules.value == {})
      ensures selected.Some? ==>
        var p := selected.value;
        && p in workArea.value && p in cells && Live(cells[p]) && cells[p].modules.value != {}
        && forall q :: q in workArea.value && q in cells && Live(cells[q]) && cells[q].modules.value != {} ==>
             entropy(cells[p].modules.value) <= entropy(cells[q].modules.value)
    {
      var rest := workArea.value;
      var min: real := 0.0;
      selected := None;
      while rest != {}
        invariant rest <= workArea.value
        invariant forall q :: q in workArea.value - rest ==> q in cells && Live(cells[q])
        invariant selected.None? <==> forall q :: q in workArea.value - rest ==> cells[q].modules.value == {}
        invariant selected.Some? ==>
          && selected.value in workArea.value - rest && cells[selected.value].modules.value != {}
          && min == entropy(cells[selected.value].modules.value)
          && forall q :: q in workArea.value - rest && cells[q].modules.value != {} ==>
               min <= entropy(cells[q].modules.value)
        decreases |rest|
      {
        var q :| q in rest;
        if q !in cells || !Live(cells[q]) {
          assert q in workArea.value;
          return None;
        }
        if cells[q].modules.value != {} {
          var e := entropy(cells[q].modules.value);
          if selected.None? || e < min {
            selected, min := Some(q), e;
          }
        }
        rest := rest - {q};
      }
      assert workArea.value - rest == workArea.value;
    }

    /** The catch block's counters: a history grown past the barrier moves
        the barrier up to `TotalCount` and starts over from two steps;
        otherwise the number of steps doubles, as a 32-bit integer. */
    method Backoff()
      modifies this
      ensures Current() == old(Current()) && (centre, limit, muted) == old((centre, limit, muted))
      ensures if old(history.total) > old(backtrackBarrier)
              then backtrackBarrier == old(history.total) && backtrack == 2
              else backtrackBarrier == old(backtrackBarrier) && backtrack == Doubled(old(backtrack))
      ensures BacktrackAmount(old(backtrack)) ==> BacktrackAmount(backtrack)
    {
      if history.total > backtrackBarrier {
        backtrackBarrier := history.total;
        backtrack := 2;
      } else {
        if BacktrackAmount(backtrack) {
          DoubledKeepsAmount(backtrack);
        }
        backtrack := Doubled(backtrack);
      }
    }

    /** `Collapse(targets)`: the removal queue is cleared and the work area
        gathered; then, while it is not empty, the cell of least entropy
        collapses at random. A contradiction clears the queue and undoes
        the last `backtrack` collapses. Both solvers catch only
        contradictions (the six-way `catch (Exception)` names the project's
        own `Exception(Cell)` class, which shadows `System.Exception`): any
        other exception, in the selection, the collapse or `Undo`, ends the
        call. Each collapse attempt
        spends one unit of `fuel`. Success leaves the work area empty and
        every cell handed out for a target collapsed. */
    method CollapseTargets(targets: seq<Vec3>, fuel: nat) returns (outcome: Outcome)
      requires Valid()
      modifies this
      ensures Valid() && GridOf() == old(GridOf()) && (centre, limit, muted) == old((centre, limit, muted))
      ensures outcome != Contradiction
      ensures outcome == Ok ==> workArea == Some({})
      ensures outcome == Ok ==>
        var handed := Gather(old(GridOf()), old(cells), targets, {}, {}).1;
        forall q :: q in handed ==> q in cells && cells[q].chosen.Some?
    {
      ghost var g := GridOf();
      queue := Q.Empty();
      ghost var cells0 := cells;
      ghost var handed := GatherWorkArea(targets);
      GatherCovers(g, cells0, targets, {}, {});
      var f := fuel;
      while workArea.value != {}
        invariant Valid() && GridOf() == g && (centre, limit, muted) == old((centre, limit, muted))
        invariant Covered(Current(), handed)
        decreases f
      {
        if f == 0 {
          return OutOfFuel;
        }
        f := f - 1;
        var selected := SelectMinEntropy();
        if selected.None? {
          return Fault;
        }
        outcome := CollapseAttempt(selected.value, fuel, handed);
        if outcome == OutOfFuel || outcome == Fault {
          return;
        }
        if outcome != Ok {
          queue := Q.Empty();
          Backoff();
          ghost var before := Current();
          outcome := Undo(backtrack);
          UndoStepsTracks(layout, catalog, g, before, backtrack);
          CoveredKept(before, Current(), handed);
          if outcome != Ok {
            return;
          }
        }
      }
      outcome := Ok;
    }

    /** `selected.CollapseRandom()` inside the loop of `Collapse(targets)`:
        whatever it ends in, the cells handed out stay collapsed or in the
        work area. */
    method CollapseAttempt(p: Vec3, fuel: nat, ghost handed: set<Vec3>) returns (outcome: Outcome)
      requires Valid() && Covered(Current(), handed)
      modifies this
      ensures Valid() && Settings() == old(Settings()) && GridOf() == old(GridOf())
      ensures Covered(Current(), handed)
      ensures p in old(cells) && Live(old(cells)[p]) && old(cells)[p].modules.value == {} ==> outcome == Contradiction
    {
      ghost var before := Current();
      var m;
      m, outcome := CollapseRandom(p, fuel);
      if p in before.cells && Live(before.cells[p]) && before.cells[p].modules.value != {} && before.cells[p].chosen.None? {
        CollapseTracks(layout, catalog, GridOf(), before, p, m, fuel);
        CoveredKept(before, Current(), handed);
      }
    }

    /** `Collapse(start, size)`: every position of the box at `start`, in
        the order of the loops over x, y and z, is a target. */
    method CollapseBox(start: Vec3, size: Vec3, fuel: nat) returns (outcome: Outcome)
      requires Valid()
      modifies this
      ensures Valid() && GridOf() == old(GridOf()) && (centre, limit, muted) == old((centre, limit, muted))
      ensures outcome != Contradiction
      ensures outcome == Ok ==> workArea == Some({})
      ensures outcome == Ok ==>
        var handed := Gather(old(GridOf()), old(cells), Translate(start, Box(size.x, size.y, size.z)), {}, {}).1;
        forall q :: q in handed ==> q in cells && cells[q].chosen.Some?
    {
      var targets := Enumerate(start, size);
      outcome := CollapseTargets(targets, fuel);
    }

    /** A periodic map keeps the counters law across `Undo`. */
    lemma LawAfterUndo(st0: State, steps: int)
      requires Core() && st0.history.size > 0
      requires kind.Periodic? ==> HealthLaw.Lawful(layout, catalog, kind.size, st0.cells)
      requires Current() == UndoSteps(layout, catalog, GridOf(), st0, steps).0
      ensures Valid()
    {
      if kind.Periodic? {
        HealthLaw.UndoKeepsLaw(layout, catalog, kind.size, st0, steps);
      }
    }
  }
}

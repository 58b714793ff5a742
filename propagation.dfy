/** The propagation core shared by both solvers, on values: the cells of a
    map with their candidates and health counters (Cell.cs, Slot.cs), how a
    map resolves a position to a cell (TileMap, TilingMap and the two
    InfiniteMap files), and what `RemoveModules`, `AddModules`,
    `FinishRemovalQueue`, `Collapse` and `Undo` do to the cells, the removal
    queue and the history. The class in `Maps` carries these out step by
    step and is proved to end in the states computed here. */
module Propagation {
  import opened Basics
  import opened Catalogs
  import opened Grids
  import Q = QueueDictionaries
  import R = RingBuffers

  // ---------------------------------------------------------------------
  // Solver state.

  /** A cell: its position, its remaining candidates (`None` once `Forget`
      has dropped candidates and counters), its health counters
      `health[d][x]`, and the module it collapsed to (`Collapsed`). */
  datatype Cell = Cell(position: Vec3, modules: Option<set<nat>>, health: seq<seq<int>>, chosen: Option<nat>)

  /** Not `Forgotten`. */
  predicate Live(c: Cell) {
    c.modules.Some?
  }

  /** `Forget`: candidates and counters are dropped, the module stays. */
  function Forgotten(c: Cell): (r: Cell)
    ensures !Live(r) && r.position == c.position && r.chosen == c.chosen
  {
    c.(modules := None, health := [])
  }

  /** A history entry (SavedCell, HistoryItem): the cell whose collapse it
      records and what was removed since, per cell, with the cells in the
      order the dictionary received them. */
  datatype Record = Record(cell: Vec3, keys: seq<Vec3>, removed: map<Vec3, set<nat>>)

  /** How a map finds a cell: a periodic box (TileMap, TilingMap), or an
      unbounded map that creates cells on demand (InfiniteMap) inside a
      height, within a range limit, from a default column of cells. */
  datatype Grid =
    | Tiled(size: Vec3)
    | Lazy(height: int, centre: Vec3, limit: int, column: map<Vec3, Cell>)

  /** How an operation ended: normally, with a contradiction (the
      exception a cell throws when it runs out of candidates), with any
      other exception (a null or forgotten cell, a cell already collapsed),
      or, in the model only, with its step bound spent. */
  datatype Outcome = Ok | Contradiction | Fault | OutOfFuel

  /** The cells by position, the removal queue, the history, the work area
      (null until the first `Collapse` of a target list) and the build
      queue (the positions handed over as collapsed, in order). */
  datatype State = State(cells: map<Vec3, Cell>, queue: Q.QueueDict<Vec3, set<nat>>,
                         history: R.Ring<Record>, workArea: Option<set<Vec3>>, built: seq<Vec3>)

  /** `NotifyCollapseUndone`: the cell goes back into the work area. */
  function Reopened(w: Option<set<Vec3>>, p: Vec3): Option<set<Vec3>> {
    if w.Some? then Some(w.value + {p}) else None
  }

  /** `NotifyCollapsed`: the cell leaves the work area. */
  function Settled(w: Option<set<Vec3>>, p: Vec3): Option<set<Vec3>> {
    if w.Some? then Some(w.value - {p}) else None
  }

  // ---------------------------------------------------------------------
  // Resolving a position.

  /** `GetCell` of a periodic box. */
  function TiledCell(size: Vec3, cells: map<Vec3, Cell>, p: Vec3): (r: Option<Vec3>)
    ensures r.Some? ==> r.value in cells
  {
    if size.x > 0 && size.z > 0 then
      var q := Locate(size, p);
      if q.Some? && q.value in cells then q else None
    else None
  }

  /** `GetCell` / `GetSlot`: the position of the cell the map hands out for
      `p`, or `None` for null, together with the cells afterwards, since an
      unbounded map creates the cell on first use, cloning candidates and
      counters from the default column at the same height. */
  function Resolve(g: Grid, cells: map<Vec3, Cell>, p: Vec3): (r: (map<Vec3, Cell>, Option<Vec3>))
    ensures r.1.Some? ==> r.1.value in r.0
    ensures cells.Keys <= r.0.Keys && forall k :: k in cells ==> r.0[k] == cells[k]
  {
    match g
    case Tiled(size) => (cells, TiledCell(size, cells, p))
    case Lazy(height, centre, limit, column) =>
      if p.y >= height || p.y < 0 then (cells, None)
      else if p in cells then (cells, Some(p))
      else if IsOutOfRange(p, centre, limit) then (cells, None)
      else
        var proto := TiledCell(Vec3(1, height, 1), column, p);
        if proto.None? then (cells, None)
        else
          var c := column[proto.value];
          (cells[p := Cell(p, c.modules, c.health, None)], Some(p))
  }

  /** Every cell of `a` is still in `b` with the same position, candidates
      and module; only counters may differ. */
  predicate Extends(a: map<Vec3, Cell>, b: map<Vec3, Cell>) {
    forall k :: k in a ==> k in b && b[k].position == a[k].position
                           && b[k].modules == a[k].modules && b[k].chosen == a[k].chosen
  }

  // ---------------------------------------------------------------------
  // Removing candidates (`RemoveModules`).

  /** The counters of a row after every module of `s` has withdrawn its
      support in direction `d`. */
  function Dropped(c: Catalog, row: seq<int>, s: set<nat>, d: nat): (r: seq<int>)
    ensures |r| == |row|
  {
    seq(|row|, x requires 0 <= x < |row| => row[x] - Support(c, s, d, x))
  }

  /** The candidates of a neighbour whose counter passes through one on the
      way down: exactly those that lose their last support. */
  function Emptied(c: Catalog, row: seq<int>, s: set<nat>, d: nat, mods: set<nat>): set<nat> {
    set x | x in mods && x < |row| && row[x] >= 1 && row[x] - Support(c, s, d, x) <= 0
  }

  /** `removalQueue[key].Add(x)` for every `x` of `xs`: the first such
      lookup creates and queues an empty set for a new key. */
  function Enqueue(q: Q.QueueDict<Vec3, set<nat>>, key: Vec3, xs: set<nat>): Q.QueueDict<Vec3, set<nat>> {
    if xs == {} then q
    else
      var (q1, v) := Q.Lookup(q, key, {});
      q1.(dict := q1.dict[key := v + xs])
  }

  /** One turn of the direction loop of `RemoveModules`: the modules `s`
      taken from the cell at `p` stop supporting candidates of its
      neighbour in direction `i`; a null or forgotten neighbour is skipped. */
  function DropToward(l: Layout, c: Catalog, g: Grid, st: State, p: Vec3, s: set<nat>, i: nat): (r: State)
    requires i < DirCount(l)
    ensures Extends(st.cells, r.cells)
    ensures r.history == st.history && r.workArea == st.workArea && r.built == st.built
  {
    var (cells, q) := Resolve(g, st.cells, Step(l, p, i));
    var o := Opp(l, i);
    if q.None? || !Live(cells[q.value]) || o >= |cells[q.value].health| then st.(cells := cells)
    else
      var nb := cells[q.value];
      var row := nb.health[o];
      st.(cells := cells[q.value := nb.(health := nb.health[o := Dropped(c, row, s, i)])],
          queue := Enqueue(st.queue, q.value, Emptied(c, row, s, i, nb.modules.value)))
  }

  /** The direction loop from direction `i` on. */
  function DropDirs(l: Layout, c: Catalog, g: Grid, st: State, p: Vec3, s: set<nat>, i: nat): (r: State)
    requires i <= DirCount(l)
    decreases DirCount(l) - i
    ensures Extends(st.cells, r.cells)
    ensures r.history == st.history && r.workArea == st.workArea && r.built == st.built
  {
    if i == DirCount(l) then st
    else DropDirs(l, c, g, DropToward(l, c, g, st, p, s, i), p, s, i + 1)
  }

  /** `removedModules[p].Add(s)` on a record, creating the entry first. */
  function Recorded(r: Record, p: Vec3, s: set<nat>): Record {
    if p in r.removed then r.(removed := r.removed[p := r.removed[p] + s])
    else r.(keys := r.keys + [p], removed := r.removed[p := s])
  }

  /** The removal is added to the top history record, if there is one. */
  function RecordRemoval(h: R.Ring<Record>, p: Vec3, s: set<nat>): (r: R.Ring<Record>)
    ensures r.size == h.size && r.position == h.position && r.total == h.total && |r.items| == |h.items|
    ensures |h.items| > 0 ==> r.items[..|r.items| - 1] == h.items[..|h.items| - 1]
                              && r.items[|r.items| - 1] == Recorded(h.items[|h.items| - 1], p, s)
  {
    if |h.items| == 0 then h
    else h.(items := h.items[..|h.items| - 1] + [Recorded(h.items[|h.items| - 1], p, s)])
  }

  /** `RemoveModules(s, false)` at `p`: the modules actually removed (`s`
      cut down to the candidates) are recorded, withdrawn from the
      neighbours' counters and taken out of the candidates; an empty
      result is a contradiction. A missing or forgotten cell faults. */
  function RemoveOnce(l: Layout, c: Catalog, g: Grid, st: State, p: Vec3, s: set<nat>): (r: (State, set<nat>, Outcome))
    ensures r.2 == Fault <==> p !in st.cells || !Live(st.cells[p])
    ensures r.2 == Fault ==> r.0 == st
    ensures r.2 != Fault ==> r.2 == Ok || r.2 == Contradiction
    ensures r.2 != Fault ==>
      var before := st.cells[p].modules.value;
      && r.1 == s * before
      && p in r.0.cells && r.0.cells[p].modules == Some(before - s)
      && (r.2 == Contradiction <==> before <= s)
  {
    if p !in st.cells || !Live(st.cells[p]) then (st, {}, Fault)
    else
      var before := st.cells[p].modules.value;
      var t := s * before;
      var st1 := st.(history := RecordRemoval(st.history, p, t));
      var st2 := DropDirs(l, c, g, st1, p, t, 0);
      var cell := st2.cells[p];
      var left := cell.modules.value - t;
      assert left == before - s && (left == {} <==> before <= s) by {
        CutDown(before, s);
      }
      (st2.(cells := st2.cells[p := cell.(modules := Some(left))]), t, if left == {} then Contradiction else Ok)
  }

  lemma CutDown(before: set<nat>, s: set<nat>)
    ensures before - s * before == before - s
    ensures before - s == {} <==> before <= s
  {
    if before - s == {} {
      forall x | x in before ensures x in s {
        assert x !in before - s;
      }
    }
  }

  /** Candidates only shrink, nothing is forgotten or revived, and a
      collapsed cell keeps its candidates. */
  predicate Narrows(a: map<Vec3, Cell>, b: map<Vec3, Cell>) {
    && a.Keys <= b.Keys
    && (forall k {:trigger NarrowsAt(a[k], b[k])} :: k in a ==> NarrowsAt(a[k], b[k]))
  }

  predicate NarrowsAt(a: Cell, b: Cell) {
    && b.position == a.position && b.chosen == a.chosen
    && (Live(a) <==> Live(b))
    && (Live(a) ==> b.modules.value <= a.modules.value)
    && (a.chosen.Some? ==> b.modules == a.modules)
  }

  /** `RemoveOnce` touches the candidates of its own cell only. */
  lemma RemoveOnceFrame(l: Layout, c: Catalog, g: Grid, st: State, p: Vec3, s: set<nat>)
    ensures var r := RemoveOnce(l, c, g, st, p, s);
      && (forall k :: k in st.cells && k != p ==>
            k in r.0.cells && r.0.cells[k].position == st.cells[k].position
            && r.0.cells[k].modules == st.cells[k].modules && r.0.cells[k].chosen == st.cells[k].chosen)
      && (p in st.cells ==> p in r.0.cells && r.0.cells[p].position == st.cells[p].position
                            && r.0.cells[p].chosen == st.cells[p].chosen)
      && r.0.workArea == st.workArea && r.0.built == st.built
      && r.0.history.size == st.history.size && r.0.history.position == st.history.position
      && r.0.history.total == st.history.total && |r.0.history.items| == |st.history.items|
      && (|st.history.items| > 0 ==> TopCell(r.0.history) == TopCell(st.history))
  {
  }

  /** The cell of the top history record, and everything below it. */
  function TopCell(h: R.Ring<Record>): Vec3
    requires |h.items| > 0
  {
    h.items[|h.items| - 1].cell
  }

  /** One turn of `FinishRemovalQueue`: the front entry is dequeued and the
      cell it names, unless collapsed, loses the queued modules without
      draining again. A null cell faults. */
  function FinishTurn(l: Layout, c: Catalog, g: Grid, st: State): (r: (State, Outcome))
    requires st.queue.queue != []
  {
    var key := st.queue.queue[0];
    var s := if key in st.queue.dict then st.queue.dict[key] else {};
    var (cells, q) := Resolve(g, st.cells, key);
    var st1 := st.(cells := cells, queue := Q.Dequeued(st.queue));
    if q.None? then (st1, Fault)
    else if cells[q.value].chosen.Some? then (st1, Ok)
    else
      var r1 := RemoveOnce(l, c, g, st1, q.value, s);
      (r1.0, r1.2)
  }

  /** `FinishRemovalQueue`, for at most `fuel` turns; a contradiction or a
      fault ends the drain. Draining only narrows candidates, never those
      of a collapsed cell, and leaves the work area, the build queue and
      the shape of the history as they were. */
  function Finish(l: Layout, c: Catalog, g: Grid, st: State, fuel: nat): (r: (State, Outcome))
    decreases fuel
    ensures r.1 == Ok ==> r.0.queue.queue == []
    ensures st.queue.queue == [] ==> r == (st, Ok)
    ensures DrainKeeps(st, r.0)
  {
    if st.queue.queue == [] || fuel == 0 then
      StayKeeps(st);
      (st, if st.queue.queue == [] then Ok else OutOfFuel)
    else
      var r1 := FinishTurn(l, c, g, st);
      TurnKeeps(l, c, g, st);
      if r1.1 != Ok then r1
      else
        var r2 := Finish(l, c, g, r1.0, fuel - 1);
        DrainKeepsTrans(st, r1.0, r2.0);
        r2
  }

  /** What a drain keeps: candidates only narrow, never those of a
      collapsed cell; the work area and the build queue stay; the history
      keeps its shape and its top record's cell. */
  predicate DrainKeeps(a: State, b: State) {
    && Narrows(a.cells, b.cells)
    && b.workArea == a.workArea && b.built == a.built
    && b.history.size == a.history.size && b.history.position == a.history.position
    && b.history.total == a.history.total && |b.history.items| == |a.history.items|
    && (|a.history.items| > 0 ==> TopCell(b.history) == TopCell(a.history))
  }

  lemma DrainKeepsTrans(a: State, b: State, d: State)
    requires DrainKeeps(a, b) && DrainKeeps(b, d)
    ensures DrainKeeps(a, d)
  {
    forall k | k in a.cells ensures k in d.cells && NarrowsAt(a.cells[k], d.cells[k]) {
      assert NarrowsAt(a.cells[k], b.cells[k]) && NarrowsAt(b.cells[k], d.cells[k]);
    }
  }

  lemma TurnKeeps(l: Layout, c: Catalog, g: Grid, st: State)
    requires st.queue.queue != []
    ensures DrainKeeps(st, FinishTurn(l, c, g, st).0)
  {
    var key := st.queue.queue[0];
    var s := if key in st.queue.dict then st.queue.dict[key] else {};
    var (cells, q) := Resolve(g, st.cells, key);
    var st1 := st.(cells := cells, queue := Q.Dequeued(st.queue));
    forall k | k in st.cells ensures k in st1.cells && NarrowsAt(st.cells[k], st1.cells[k]) {
    }
    if q.Some? && cells[q.value].chosen.None? {
      RemoveKeeps(l, c, g, st1, q.value, s);
      DrainKeepsTrans(st, st1, RemoveOnce(l, c, g, st1, q.value, s).0);
    }
  }

  lemma RemoveKeeps(l: Layout, c: Catalog, g: Grid, st: State, p: Vec3, s: set<nat>)
    requires p in st.cells && st.cells[p].chosen.None?
    ensures DrainKeeps(st, RemoveOnce(l, c, g, st, p, s).0)
  {
    RemoveOnceFrame(l, c, g, st, p, s);
    var r := RemoveOnce(l, c, g, st, p, s).0;
    forall k | k in st.cells ensures k in r.cells && NarrowsAt(st.cells[k], r.cells[k]) {
    }
  }

  /** A turn that fails ends the drain with its own state and outcome. */
  lemma DrainStops(l: Layout, c: Catalog, g: Grid, goal: (State, Outcome), before: State, after: State, outcome: Outcome, f: nat)
    requires before.queue.queue != [] && f > 0 && outcome != Ok
    requires goal == Finish(l, c, g, before, f)
    requires (after, outcome) == FinishTurn(l, c, g, before)
    ensures goal == (after, outcome)
  {
  }

  /** After a turn that succeeds, the drain goes on from the turn's state. */
  lemma DrainOn(l: Layout, c: Catalog, g: Grid, goal: (State, Outcome), before: State, after: State, f: nat)
    requires before.queue.queue != []
    requires goal == Finish(l, c, g, before, f + 1)
    requires (after, Ok) == FinishTurn(l, c, g, before)
    ensures goal == Finish(l, c, g, after, f)
  {
  }

  /** The drain ends on an empty queue or an empty step bound. */
  lemma DrainDone(l: Layout, c: Catalog, g: Grid, goal: (State, Outcome), st: State, f: nat)
    requires st.queue.queue == [] || f == 0
    requires goal == Finish(l, c, g, st, f)
    ensures goal == (st, if st.queue.queue == [] then Ok else OutOfFuel)
  {
  }

  /** A state keeps what a drain keeps. */
  lemma StayKeeps(st: State)
    ensures DrainKeeps(st, st)
  {
    forall k | k in st.cells ensures NarrowsAt(st.cells[k], st.cells[k]) {
    }
  }

  /** `RemoveModules(s, recursive)`: the removal, then, unless it ended in a
      contradiction, the drain of the removal queue when `recursive`. */
  function Remove(l: Layout, c: Catalog, g: Grid, st: State, p: Vec3, s: set<nat>, recursive: bool, fuel: nat): (r: (State, set<nat>, Outcome))
  {
    var r1 := RemoveOnce(l, c, g, st, p, s);
    if r1.2 == Ok && recursive then
      var r2 := Finish(l, c, g, r1.0, fuel);
      (r2.0, r1.1, r2.1)
    else r1
  }

  // ---------------------------------------------------------------------
  // Adding candidates back (`AddModules`).

  /** A row after the modules of `list` each gain one supporter. */
  function Raised(row: seq<int>, list: seq<nat>): (r: seq<int>)
    ensures |r| == |row|
  {
    seq(|row|, x requires 0 <= x < |row| => row[x] + (if x in list then 1 else 0))
  }

  /** One turn of the direction loop of `AddModules`: module `m` at `p`
      supports again what it allows next to it in direction `i`. */
  function RaiseToward(l: Layout, c: Catalog, g: Grid, cells: map<Vec3, Cell>, p: Vec3, m: nat, i: nat): (r: map<Vec3, Cell>)
    requires i < DirCount(l)
    ensures Extends(cells, r)
  {
    var (cells1, q) := Resolve(g, cells, Step(l, p, i));
    var o := Opp(l, i);
    if q.None? || !Live(cells1[q.value]) || o >= |cells1[q.value].health|
       || m >= |c.neighbours| || i >= |c.neighbours[m]| then cells1
    else
      var nb := cells1[q.value];
      cells1[q.value := nb.(health := nb.health[o := Raised(nb.health[o], c.neighbours[m][i])])]
  }

  function RaiseDirs(l: Layout, c: Catalog, g: Grid, cells: map<Vec3, Cell>, p: Vec3, m: nat, i: nat): (r: map<Vec3, Cell>)
    requires i <= DirCount(l)
    decreases DirCount(l) - i
    ensures Extends(cells, r)
  {
    if i == DirCount(l) then cells
    else RaiseDirs(l, c, g, RaiseToward(l, c, g, cells, p, m, i), p, m, i + 1)
  }

  /** The modules of `s` from `m` up to the catalog size that the cell
      neither holds as candidates nor has collapsed to. */
  function Fresh(s: set<nat>, cell: Cell, m: nat, n: nat): set<nat>
    requires Live(cell)
  {
    set x | x in s && m <= x < n && x !in cell.modules.value && cell.chosen != Some(x)
  }

  /** Module `m` at `p` supports its neighbours again and becomes a
      candidate. */
  function Added(l: Layout, c: Catalog, g: Grid, cells: map<Vec3, Cell>, p: Vec3, m: nat): (r: map<Vec3, Cell>)
    requires p in cells && Live(cells[p])
    ensures forall k :: k in cells ==>
      k in r && r[k].position == cells[k].position && r[k].chosen == cells[k].chosen
      && (k != p ==> r[k].modules == cells[k].modules)
    ensures Live(r[p]) && r[p].modules.value == cells[p].modules.value + {m}
  {
    var c1 := RaiseDirs(l, c, g, cells, p, m, 0);
    c1[p := c1[p].(modules := Some(c1[p].modules.value + {m}))]
  }

  /** One turn of the module loop of `AddModules`: module `m` is added
      back when it is in `s` and neither a candidate nor the chosen
      module. */
  function AddTurn(l: Layout, c: Catalog, g: Grid, cells: map<Vec3, Cell>, p: Vec3, s: set<nat>, m: nat): (r: map<Vec3, Cell>)
    requires p in cells && Live(cells[p])
    ensures forall k :: k in cells ==>
      k in r && r[k].position == cells[k].position && r[k].chosen == cells[k].chosen
      && (k != p ==> r[k].modules == cells[k].modules)
    ensures Live(r[p]) && r[p].modules.value ==
      cells[p].modules.value + (if m in s && m !in cells[p].modules.value && cells[p].chosen != Some(m) then {m} else {})
  {
    if m in s && m !in cells[p].modules.value && cells[p].chosen != Some(m) then Added(l, c, g, cells, p, m)
    else cells
  }

  /** The module loop of `AddModules` from module `m` on, in ascending
      order as a module set enumerates. */
  function AddEach(l: Layout, c: Catalog, g: Grid, cells: map<Vec3, Cell>, p: Vec3, s: set<nat>, m: nat): (r: map<Vec3, Cell>)
    decreases c.n - m
    ensures forall k :: k in cells ==>
      k in r && r[k].position == cells[k].position && r[k].chosen == cells[k].chosen
      && (k != p ==> r[k].modules == cells[k].modules)
    ensures p in cells && Live(cells[p]) ==>
      Live(r[p]) && r[p].modules.value == cells[p].modules.value + Fresh(s, cells[p], m, c.n)
  {
    if m >= c.n || p !in cells || !Live(cells[p]) then cells
    else
      var next := AddTurn(l, c, g, cells, p, s, m);
      var r := AddEach(l, c, g, next, p, s, m + 1);
      assert cells[p].modules.value + Fresh(s, cells[p], m, c.n) == next[p].modules.value + Fresh(s, next[p], m + 1, c.n);
      r
  }

  /** `AddModules(s)` at `p`: every module of `s` that is neither a
      candidate nor the module the cell collapsed to supports its
      neighbours again and becomes a candidate; a collapsed cell that has
      candidates again is reopened. A missing cell faults, and so does a
      forgotten one as soon as it is asked about a module. */
  function AddBack(l: Layout, c: Catalog, g: Grid, st: State, p: Vec3, s: set<nat>): (r: (State, Outcome))
    ensures r.1 == Ok || r.1 == Fault
    ensures r.1 == Fault ==> r.0 == st
    ensures r.1 == Fault <==> p !in st.cells || (!Live(st.cells[p]) && (s * Below(c.n) != {} || st.cells[p].chosen.Some?))
    ensures p in st.cells && Live(st.cells[p]) ==>
      var cell := st.cells[p];
      var after := cell.modules.value + Fresh(s, cell, 0, c.n);
      && p in r.0.cells && r.0.cells[p].modules == Some(after)
      && r.0.cells[p].chosen == (if after != {} then None else cell.chosen)
    ensures forall k :: k in st.cells && k != p ==>
      k in r.0.cells && r.0.cells[k].modules == st.cells[k].modules && r.0.cells[k].chosen == st.cells[k].chosen
    ensures r.0.queue == st.queue && r.0.history == st.history && r.0.built == st.built
    ensures p in st.cells && !Live(st.cells[p]) ==> r.0 == st
  {
    if p !in st.cells then (st, Fault)
    else if !Live(st.cells[p]) then
      if s * Below(c.n) != {} || st.cells[p].chosen.Some? then (st, Fault) else (st, Ok)
    else
      var cells := AddEach(l, c, g, st.cells, p, s, 0);
      var cell := cells[p];
      if cell.chosen.Some? && cell.modules.value != {} then
        (st.(cells := cells[p := cell.(chosen := None)], workArea := Reopened(st.workArea, p)), Ok)
      else (st.(cells := cells), Ok)
  }

  // ---------------------------------------------------------------------
  // Collapsing and undoing.

  /** The first half of `Collapse(m)` on an open cell: the cell of the
      record the push evicts is forgotten, a fresh record for `p` goes on
      top of the history and `m` becomes the chosen module. */
  function Opened(st: State, p: Vec3, m: nat): (r: State)
    requires st.history.size > 0 && R.Inv(st.history) && p in st.cells
    ensures p in r.cells && r.cells[p].chosen == Some(m) && r.cells.Keys == st.cells.Keys
    ensures R.Inv(r.history) && r.history.size == st.history.size && R.Top(r.history) == Some(Record(p, [], map[]))
  {
    var ev := R.Evicted(st.history);
    var cells := if ev.Some? && ev.value.cell in st.cells then st.cells[ev.value.cell := Forgotten(st.cells[ev.value.cell])]
                 else st.cells;
    R.PushPopKeepInv(st.history, Record(p, [], map[]));
    st.(cells := cells[p := cells[p].(chosen := Some(m))], history := R.Pushed(st.history, Record(p, [], map[])))
  }

  /** `Collapse(m)` at `p`: a collapsed cell is left alone; otherwise a
      fresh record is pushed (a full history forgets the cell of the record
      it drops), the module is set, and every other candidate is removed
      with a drain of the queue; on success the cell leaves the work area
      and joins the build queue. */
  function CollapseTo(l: Layout, c: Catalog, g: Grid, st: State, p: Vec3, m: nat, fuel: nat): (r: (State, Outcome))
    requires st.history.size > 0 && R.Inv(st.history)
  {
    if p !in st.cells then (st, Fault)
    else if st.cells[p].chosen.Some? then (st, Ok)
    else
      var st1 := Opened(st, p, m);
      if !Live(st1.cells[p]) then (st1, Fault)
      else
        var r1 := Remove(l, c, g, st1, p, st1.cells[p].modules.value - {m}, true, fuel);
        if r1.2 == Ok then (r1.0.(workArea := Settled(r1.0.workArea, p), built := r1.0.built + [p]), Ok)
        else (r1.0, r1.2)
  }

  /** What `Collapse(m)` promises: a missing cell faults and a collapsed
      one is left alone; otherwise a record for the cell is on top of the
      history, and success means `m` was a candidate and is now the only
      one and the chosen module, with the cell out of the work area and
      last in the build queue. A module that is not a candidate is a
      contradiction. */
  lemma CollapseChooses(l: Layout, c: Catalog, g: Grid, st: State, p: Vec3, m: nat, fuel: nat)
    requires st.history.size > 0 && R.Inv(st.history)
    ensures var r := CollapseTo(l, c, g, st, p, m, fuel);
      && (p !in st.cells ==> r.1 == Fault)
      && (p in st.cells && st.cells[p].chosen.Some? ==> r == (st, Ok))
      && (p in st.cells && st.cells[p].chosen.None? ==>
            && |r.0.history.items| > 0 && TopCell(r.0.history) == p
            && (R.Evicted(st.history).Some? && R.Evicted(st.history).value.cell == p ==> r.1 == Fault)
            && (Live(st.cells[p]) && m !in st.cells[p].modules.value && r.1 != Fault ==> r.1 == Contradiction)
            && (r.1 == Ok ==>
                  && Live(st.cells[p]) && m in st.cells[p].modules.value
                  && p in r.0.cells && r.0.cells[p].chosen == Some(m) && r.0.cells[p].modules == Some({m})
                  && r.0.built == st.built + [p] && r.0.workArea == Settled(st.workArea, p)))
  {
    if p in st.cells && st.cells[p].chosen.None? {
      var ev := R.Evicted(st.history);
      var cells := if ev.Some? && ev.value.cell in st.cells then st.cells[ev.value.cell := Forgotten(st.cells[ev.value.cell])]
                   else st.cells;
      var cells1 := cells[p := cells[p].(chosen := Some(m))];
      var h := R.Pushed(st.history, Record(p, [], map[]));
      var st1 := st.(cells := cells1, history := h);
      assert TopCell(h) == p;
      if Live(cells1[p]) {
        var mods := cells1[p].modules.value;
        assert mods == st.cells[p].modules.value;
        RemoveOthers(l, c, g, st1, p, m, fuel);
      }
    }
  }

  /** The removal of every candidate but the chosen one, and its drain. */
  lemma RemoveOthers(l: Layout, c: Catalog, g: Grid, st: State, p: Vec3, m: nat, fuel: nat)
    requires p in st.cells && Live(st.cells[p]) && st.cells[p].chosen == Some(m)
    ensures var mods := st.cells[p].modules.value;
      var r := Remove(l, c, g, st, p, mods - {m}, true, fuel);
      && (m !in mods ==> r.2 == Contradiction)
      && (r.2 == Ok ==> m in mods && p in r.0.cells && r.0.cells[p].chosen == Some(m) && r.0.cells[p].modules == Some({m}))
      && r.0.built == st.built && r.0.workArea == st.workArea
      && |r.0.history.items| == |st.history.items|
      && (|st.history.items| > 0 ==> TopCell(r.0.history) == TopCell(st.history))
  {
    var mods := st.cells[p].modules.value;
    var r1 := RemoveOnce(l, c, g, st, p, mods - {m});
    KeepOnly(l, c, g, st, p, m);
    if r1.2 == Ok {
      var r2 := Finish(l, c, g, r1.0, fuel);
      assert NarrowsAt(r1.0.cells[p], r2.0.cells[p]);
    }
  }

  /** Removing every candidate but `m` leaves `{m}` or nothing. */
  lemma KeepOnly(l: Layout, c: Catalog, g: Grid, st: State, p: Vec3, m: nat)
    requires p in st.cells && Live(st.cells[p])
    ensures var mods := st.cells[p].modules.value;
      var r := RemoveOnce(l, c, g, st, p, mods - {m});
      && (r.2 == Contradiction <==> m !in mods) && r.2 != Fault
      && (r.2 == Ok ==> p in r.0.cells && r.0.cells[p].modules == Some({m}) && r.0.cells[p].chosen == st.cells[p].chosen)
      && r.0.built == st.built && r.0.workArea == st.workArea
      && |r.0.history.items| == |st.history.items|
      && (|st.history.items| > 0 ==> TopCell(r.0.history) == TopCell(st.history))
  {
    var mods := st.cells[p].modules.value;
    RemoveOnceFrame(l, c, g, st, p, mods - {m});
    assert mods - (mods - {m}) == if m in mods then {m} else {};
  }

  /** The key loop of `Undo` over one record, from key `i` on: each cell
      named in the record gets its removed modules back. */
  function UndoKeys(l: Layout, c: Catalog, g: Grid, st: State, rec: Record, i: nat): (r: (State, Outcome))
    decreases |rec.keys| - i
    ensures r.0.history == st.history && r.0.queue == st.queue && r.0.built == st.built
    ensures r.1 == Ok || r.1 == Fault
  {
    if i >= |rec.keys| then (st, Ok)
    else
      var key := rec.keys[i];
      var (cells, q) := Resolve(g, st.cells, key);
      if q.None? then (st.(cells := cells), Fault)
      else
        var r1 := AddBack(l, c, g, st.(cells := cells), q.value, if key in rec.removed then rec.removed[key] else {});
        if r1.1 != Ok then r1 else UndoKeys(l, c, g, r1.0, rec, i + 1)
  }

  /** The modules a record holds for the cell at `k`, none when it does
      not name it. */
  function Removed(rec: Record, k: Vec3): set<nat> {
    if k in rec.removed then rec.removed[k] else {}
  }

  /** The map hands out the cell stored at `p` itself, creating nothing. */
  predicate InPlace(g: Grid, cells: map<Vec3, Cell>, p: Vec3) {
    Resolve(g, cells, p) == (cells, Some(p))
  }

  /** A cell handed out in place is stored. */
  lemma InPlaceStored(g: Grid, cells: map<Vec3, Cell>, p: Vec3)
    requires InPlace(g, cells, p)
    ensures p in cells
  {
    assert Resolve(g, cells, p).1 == Some(p);
  }

  /** A cell handed out in place still is once the map has more cells. */
  lemma InPlaceGrows(g: Grid, a: map<Vec3, Cell>, b: map<Vec3, Cell>, p: Vec3)
    requires InPlace(g, a, p) && a.Keys <= b.Keys
    ensures InPlace(g, b, p)
  {
  }

  /** The candidates and the module of a cell, which is what `Undo`
      restores. */
  function Status(cell: Cell): (Option<set<nat>>, Option<nat>) {
    (cell.modules, cell.chosen)
  }

  /** The candidates and module of a cell after `AddModules(s)` succeeds
      on it: a live cell gains the modules of `s` below `n` that it neither
      holds nor has collapsed to, and is reopened once it has candidates;
      a forgotten cell stays as it is. */
  function AddedBack(cell: Cell, s: set<nat>, n: nat): (r: (Option<set<nat>>, Option<nat>))
    ensures Live(cell) ==> r.0.Some? && cell.modules.value <= r.0.value && r.0.value <= cell.modules.value + s
    ensures !Live(cell) ==> r == Status(cell)
  {
    if !Live(cell) then Status(cell)
    else
      var after := cell.modules.value + Fresh(s, cell, 0, n);
      (Some(after), if after != {} then None else cell.chosen)
  }

  /** `AddedBack` reads only the candidates and the module. */
  lemma AddedBackByStatus(a: Cell, b: Cell, s: set<nat>, n: nat)
    requires Status(a) == Status(b)
    ensures AddedBack(a, s, n) == AddedBack(b, s, n)
  {
    if Live(a) {
      assert Fresh(s, a, 0, n) == Fresh(s, b, 0, n);
    }
  }

  /** The keys of `rec` from `i` on name stored live cells. */
  predicate KeysLive(cells: map<Vec3, Cell>, rec: Record, i: nat) {
    forall j :: i <= j < |rec.keys| ==> rec.keys[j] in cells && Live(cells[rec.keys[j]])
  }

  /** The keys of `rec` from `i` on are distinct. */
  predicate KeysDistinct(rec: Record, i: nat) {
    forall j, j' :: i <= j < j' < |rec.keys| ==> rec.keys[j] != rec.keys[j']
  }

  /** From `a` to `b`, the cell at `p` got back what `AddedBack` says for
      `s`, and no other cell's candidates or module changed. */
  predicate AddedBackAt(n: nat, a: map<Vec3, Cell>, b: map<Vec3, Cell>, p: Vec3, s: set<nat>) {
    && a.Keys <= b.Keys
    && forall k :: k in a ==> Status(b[k]) == if k == p then AddedBack(a[k], s, n) else Status(a[k])
  }

  /** From `a` to `b`, every cell named by a key of `rec` from `i` on got
      back what `AddedBack` says for what the record removed from it, and
      no other cell's candidates or module changed. */
  predicate AddedBackFrom(n: nat, a: map<Vec3, Cell>, b: map<Vec3, Cell>, rec: Record, i: nat)
    requires i <= |rec.keys|
  {
    && a.Keys <= b.Keys
    && forall k :: k in a ==>
         Status(b[k]) == if k in rec.keys[i..] then AddedBack(a[k], Removed(rec, k), n) else Status(a[k])
  }

  /** `AddModules(s)` at a stored cell, cell by cell: it succeeds on a
      live cell, and success changes that cell as `AddedBack` says and no
      other cell's candidates or module. */
  lemma AddBackStep(l: Layout, c: Catalog, g: Grid, st: State, p: Vec3, s: set<nat>)
    requires p in st.cells
    ensures var r := AddBack(l, c, g, st, p, s);
      && (Live(st.cells[p]) ==> r.1 == Ok)
      && (r.1 == Ok ==> AddedBackAt(c.n, st.cells, r.0.cells, p, s))
  {
  }

  /** What the key loop of `Undo` does to the cells, when the record
      names each cell once and every named cell is stored in place: each
      named cell gets back what `AddedBack` says, every other cell keeps
      its candidates and module, and the loop fails only when a named
      cell has been forgotten. */
  lemma {:induction false} UndoKeysRestores(l: Layout, c: Catalog, g: Grid, st: State, rec: Record, i: nat)
    requires i <= |rec.keys| && KeysDistinct(rec, i)
    requires forall j :: i <= j < |rec.keys| ==> InPlace(g, st.cells, rec.keys[j])
    decreases |rec.keys| - i
    ensures var r := UndoKeys(l, c, g, st, rec, i);
      && (KeysLive(st.cells, rec, i) ==> r.1 == Ok)
      && (r.1 == Ok ==> AddedBackFrom(c.n, st.cells, r.0.cells, rec, i))
  {
    if i < |rec.keys| {
      var key := rec.keys[i];
      var s := Removed(rec, key);
      InPlaceStored(g, st.cells, key);
      AddBackStep(l, c, g, st, key, s);
      var r1 := AddBack(l, c, g, st, key, s);
      assert UndoKeys(l, c, g, st, rec, i) == if r1.1 != Ok then r1 else UndoKeys(l, c, g, r1.0, rec, i + 1);
      if r1.1 == Ok {
        forall j | i + 1 <= j < |rec.keys| ensures InPlace(g, r1.0.cells, rec.keys[j]) {
          InPlaceGrows(g, st.cells, r1.0.cells, rec.keys[j]);
        }
        UndoKeysRestores(l, c, g, r1.0, rec, i + 1);
        var r := UndoKeys(l, c, g, r1.0, rec, i + 1);
        if KeysLive(st.cells, rec, i) {
          LiveStep(c.n, st.cells, r1.0.cells, rec, i);
        }
        if r.1 == Ok {
          StatusStep(c.n, st.cells, r1.0.cells, r.0.cells, rec, i);
        }
      }
    } else {
      assert AddedBackFrom(c.n, st.cells, st.cells, rec, i);
    }
  }

  /** The step of `UndoKeysRestores` for the liveness of the keys left. */
  lemma LiveStep(n: nat, a: map<Vec3, Cell>, b: map<Vec3, Cell>, rec: Record, i: nat)
    requires i < |rec.keys| && KeysDistinct(rec, i) && KeysLive(a, rec, i)
    requires AddedBackAt(n, a, b, rec.keys[i], Removed(rec, rec.keys[i]))
    ensures KeysLive(b, rec, i + 1)
  {
    forall j | i + 1 <= j < |rec.keys| ensures rec.keys[j] in b && Live(b[rec.keys[j]]) {
      assert rec.keys[j] != rec.keys[i];
    }
  }

  /** The step of `UndoKeysRestores` for the cells: the first key's cell,
      then the cells of the keys left. */
  lemma StatusStep(n: nat, a: map<Vec3, Cell>, b: map<Vec3, Cell>, d: map<Vec3, Cell>, rec: Record, i: nat)
    requires i < |rec.keys| && KeysDistinct(rec, i)
    requires AddedBackAt(n, a, b, rec.keys[i], Removed(rec, rec.keys[i]))
    requires AddedBackFrom(n, b, d, rec, i + 1)
    ensures AddedBackFrom(n, a, d, rec, i)
  {
    var key := rec.keys[i];
    assert rec.keys[i..] == [key] + rec.keys[i + 1..];
    forall k | k in a
      ensures Status(d[k]) == if k in rec.keys[i..] then AddedBack(a[k], Removed(rec, k), n) else Status(a[k])
    {
      if k == key {
        assert k !in rec.keys[i + 1..];
      } else if k in rec.keys[i + 1..] {
        AddedBackByStatus(b[k], a[k], Removed(rec, k), n);
      }
    }
  }

  /** One turn of `Undo`: the top record is popped, its removals are added
      back, and its cell is reopened. */
  function UndoOne(l: Layout, c: Catalog, g: Grid, st: State): (r: (State, Outcome))
    requires st.history.size > 0 && |st.history.items| > 0
    ensures r.0.history == R.Popped(st.history) && r.0.queue == st.queue
    ensures r.1 == Ok || r.1 == Fault
    ensures r.1 == Ok ==>
      var p := st.history.items[|st.history.items| - 1].cell;
      p in r.0.cells && r.0.cells[p].chosen.None?
  {
    var rec := st.history.items[|st.history.items| - 1];
    var r1 := UndoKeys(l, c, g, st.(history := R.Popped(st.history)), rec, 0);
    if r1.1 != Ok then r1
    else if rec.cell !in r1.0.cells then (r1.0, Fault)
    else
      var st1 := r1.0;
      (st1.(cells := st1.cells[rec.cell := st1.cells[rec.cell].(chosen := None)], workArea := Reopened(st1.workArea, rec.cell)), Ok)
  }

  /** `Undo(steps)`: up to `steps` records are undone, newest first, while
      the history lasts. */
  function UndoSteps(l: Layout, c: Catalog, g: Grid, st: State, steps: int): (r: (State, Outcome))
    requires st.history.size > 0
    decreases if steps > 0 then steps else 0
    ensures r.0.history.size == st.history.size && r.0.queue == st.queue
    ensures r.1 == Ok || r.1 == Fault
    ensures r.1 == Ok ==>
      var n := |st.history.items|;
      var popped := if steps <= 0 then 0 else if steps < n then steps else n;
      r.0.history.items == st.history.items[..n - popped]
      && r.0.history.total == st.history.total - popped
  {
    if steps <= 0 || |st.history.items| == 0 then (st, Ok)
    else
      var r1 := UndoOne(l, c, g, st);
      if r1.1 != Ok then r1 else UndoSteps(l, c, g, r1.0, steps - 1)
  }
}

/** What `Undo` gives back (MapBase.cs `Undo`, Cell.cs `Collapse` and
    `AddModules`): on a periodic map whose history has room, collapsing an
    open cell, whether it succeeds or ends in a contradiction, and then
    undoing the record that collapse pushed restores every cell's
    candidates and module, the history, and every counter the health law
    governs. The proof follows the collapse's record through
    the drain one turn at a time: at every point the record holds, cell by
    cell, exactly what the collapse has removed so far. */
module Restoring {
  import opened Basics
  import opened Catalogs
  import opened Grids
  import opened Propagation
  import opened HealthLaw
  import Q = QueueDictionaries
  import R = RingBuffers

  // ---------------------------------------------------------------------
  // What the collapse's record holds.

  /** Cell `a` before the collapse of `p` to `m` and cell `b` now, with
      `removed` what the record holds for it: `b` lost exactly `removed`;
      a cell the record names is live and open, unless it is `p`, which
      has `m` as its module and never loses it. */
  predicate AccountedAt(a: Cell, b: Cell, removed: set<nat>, named: bool, own: bool, m: nat) {
    && b.chosen == (if own then Some(m) else a.chosen)
    && (Live(a) <==> Live(b))
    && (named ==> Live(b) && (own || b.chosen.None?))
    && (!named ==> removed == {})
    && (Live(a) ==> b.modules.value + removed == a.modules.value && b.modules.value !! removed)
    && (b.chosen.Some? ==> b.chosen.value !in removed)
  }

  /** The cells `now` part way through the collapse of `p` to `m` from
      the cells `before`, with `rec` the collapse's record: it is `p`'s,
      it names each cell once, and it holds for every cell what the
      collapse has removed from it. */
  ghost predicate Ledger(before: map<Vec3, Cell>, now: map<Vec3, Cell>, rec: Record, p: Vec3, m: nat) {
    && now.Keys == before.Keys
    && rec.cell == p && KeysDistinct(rec, 0)
    && (forall k :: k in rec.keys <==> k in rec.removed)
    && (forall k :: k in rec.keys ==> k in before)
    && forall k :: k in before ==>
         AccountedAt(before[k], now[k], Removed(rec, k), k in rec.keys, k == p, m)
  }

  /** The state `st` part way through the collapse of `p` to `m` from
      `st0`: one record has been pushed onto the history below which
      nothing changed, and the cells and that record keep the ledger. */
  ghost predicate Accounted(st0: State, st: State, p: Vec3, m: nat) {
    && p in st0.cells && st0.history.size > 0
    && |st.history.items| == |st0.history.items| + 1
    && st.history.items[..|st0.history.items|] == st0.history.items
    && st.history.size == st0.history.size && st.history.total == st0.history.total + 1
    && st.history.position == R.Next(st0.history.position, st0.history.size)
    && Ledger(st0.cells, st.cells, st.history.items[|st0.history.items|], p, m)
  }

  /** Two periodic maps hold the same positions. */
  lemma WholeKeys(size: Vec3, a: map<Vec3, Cell>, b: map<Vec3, Cell>)
    requires Whole(size, a) && Whole(size, b)
    ensures a.Keys == b.Keys
  {
    forall k | k in a ensures k in b {
      assert InBox(size, k);
    }
    forall k | k in b ensures k in a {
      assert InBox(size, k);
    }
  }

  // ---------------------------------------------------------------------
  // The collapse keeps the account.

  /** Opening the cell starts the account: the fresh record names no
      cell, and only `p`'s module changed. */
  lemma OpenedAccounted(st: State, p: Vec3, m: nat)
    requires st.history.size > 0 && R.Inv(st.history) && |st.history.items| < st.history.size
    requires p in st.cells && st.cells[p].chosen.None?
    ensures Accounted(st, Opened(st, p, m), p, m)
  {
    var st1 := Opened(st, p, m);
    assert st1.cells == st.cells[p := st.cells[p].(chosen := Some(m))];
    assert st1.history.items == st.history.items + [Record(p, [], map[])];
  }

  /** One removal at a live cell `k0` keeps the account, given only what
      the removal does: the removal is recorded on the top record, the cell
      loses it, and no other cell's candidates or module change. */
  lemma AccountStep(st0: State, st: State, r: State, k0: Vec3, t: set<nat>, p: Vec3, m: nat)
    requires Accounted(st0, st, p, m)
    requires k0 in st.cells && Live(st.cells[k0]) && t <= st.cells[k0].modules.value
    requires if k0 == p then m !in t else st.cells[k0].chosen.None?
    requires r.history == RecordRemoval(st.history, k0, t) && r.cells.Keys == st.cells.Keys
    requires r.cells[k0].modules == Some(st.cells[k0].modules.value - t) && r.cells[k0].chosen == st.cells[k0].chosen
    requires forall k :: k in st.cells && k != k0 ==> Status(r.cells[k]) == Status(st.cells[k])
    ensures Accounted(st0, r, p, m)
  {
    var n0 := |st0.history.items|;
    var rec := st.history.items[n0];
    var rec1 := Recorded(rec, k0, t);
    assert r.history.items == st.history.items[..n0] + [rec1];
    assert r.history.items[..n0] == st0.history.items;
    assert Removed(rec1, k0) == Removed(rec, k0) + t;
    forall k | k in st0.cells
      ensures AccountedAt(st0.cells[k], r.cells[k], Removed(rec1, k), k in rec1.keys, k == p, m)
    {
      if k != k0 {
        assert Removed(rec1, k) == Removed(rec, k) && (k in rec1.keys <==> k in rec.keys);
      }
    }
  }

  /** `RemoveModules(s, false)` keeps the positions of a periodic map. */
  lemma RemoveOnceKeys(l: Layout, c: Catalog, size: Vec3, st: State, k0: Vec3, s: set<nat>)
    ensures RemoveOnce(l, c, Tiled(size), st, k0, s).0.cells.Keys == st.cells.Keys
  {
    if k0 in st.cells && Live(st.cells[k0]) {
      var t := s * st.cells[k0].modules.value;
      DropDirsClosed(l, c, size, st.(history := RecordRemoval(st.history, k0, t)), k0, t, 0);
    }
  }

  /** `RemoveModules(s, false)` at a live cell keeps the account, when
      the cell is open or is `p` and keeps `m`. */
  lemma RemoveAccounted(l: Layout, c: Catalog, size: Vec3, st0: State, st: State, k0: Vec3, s: set<nat>, p: Vec3, m: nat)
    requires Accounted(st0, st, p, m)
    requires k0 in st.cells && Live(st.cells[k0])
    requires if k0 == p then m !in s else st.cells[k0].chosen.None?
    ensures Accounted(st0, RemoveOnce(l, c, Tiled(size), st, k0, s).0, p, m)
  {
    var before := st.cells[k0].modules.value;
    var t := s * before;
    RemoveOnceFrame(l, c, Tiled(size), st, k0, s);
    RemoveOnceKeys(l, c, size, st, k0, s);
    var r := RemoveOnce(l, c, Tiled(size), st, k0, s).0;
    assert r.history == RecordRemoval(st.history, k0, t);
    CutDown(before, s);
    AccountStep(st0, st, r, k0, t, p, m);
  }

  /** A turn of the drain keeps the account: a cell it narrows is open,
      and what it loses joins what the record holds for it. */
  lemma TurnAccounted(l: Layout, c: Catalog, size: Vec3, st0: State, st: State, p: Vec3, m: nat)
    requires Accounted(st0, st, p, m) && st.queue.queue != []
    ensures Accounted(st0, FinishTurn(l, c, Tiled(size), st).0, p, m)
  {
    var key := st.queue.queue[0];
    var s := if key in st.queue.dict then st.queue.dict[key] else {};
    var q := TiledCell(size, st.cells, key);
    var st1 := st.(queue := Q.Dequeued(st.queue));
    assert Resolve(Tiled(size), st.cells, key) == (st.cells, q);
    if q.Some? && st.cells[q.value].chosen.None? {
      assert FinishTurn(l, c, Tiled(size), st).0 == RemoveOnce(l, c, Tiled(size), st1, q.value, s).0;
      if Live(st.cells[q.value]) {
        assert q.value != p;
        RemoveAccounted(l, c, size, st0, st1, q.value, s, p, m);
      }
    }
  }

  /** A good first turn hands the rest of the drain, one step shorter, to
      the state it leaves. */
  lemma DrainGoesOn(l: Layout, c: Catalog, g: Grid, st: State, fuel: nat)
    ensures st.queue.queue != [] && fuel > 0 && FinishTurn(l, c, g, st).1 == Ok ==>
      Finish(l, c, g, st, fuel) == Finish(l, c, g, FinishTurn(l, c, g, st).0, fuel - 1)
  {
  }

  /** Otherwise the drain ends where it starts or where its first turn
      leaves it. */
  lemma DrainHalts(l: Layout, c: Catalog, g: Grid, st: State, fuel: nat)
    ensures st.queue.queue == [] || fuel == 0 || FinishTurn(l, c, g, st).1 != Ok ==>
      || Finish(l, c, g, st, fuel).0 == st
      || (st.queue.queue != [] && Finish(l, c, g, st, fuel).0 == FinishTurn(l, c, g, st).0)
  {
  }

  /** One turn of the drain `goal`: it goes on from `next` with `rest`
      steps, or has ended. */
  lemma DrainTurnOn(l: Layout, c: Catalog, g: Grid, goal: (State, Outcome), st: State, fuel: nat)
      returns (going: bool, next: State, rest: nat)
    requires goal == Finish(l, c, g, st, fuel)
    ensures going ==> st.queue.queue != [] && next == FinishTurn(l, c, g, st).0
                      && goal == Finish(l, c, g, next, rest) && rest < fuel
    ensures !going ==> goal.0 == st || (st.queue.queue != [] && goal.0 == FinishTurn(l, c, g, st).0)
  {
    DrainGoesOn(l, c, g, st, fuel);
    DrainHalts(l, c, g, st, fuel);
    going := st.queue.queue != [] && fuel > 0 && FinishTurn(l, c, g, st).1 == Ok;
    next := if going then FinishTurn(l, c, g, st).0 else st;
    rest := if going then fuel - 1 else fuel;
  }

  /** Each state of `trace` is the one a turn leaves from the one before. */
  ghost predicate Turns(l: Layout, c: Catalog, g: Grid, trace: seq<State>) {
    forall i :: 0 <= i < |trace| - 1 ==>
      trace[i].queue.queue != [] && trace[i + 1] == FinishTurn(l, c, g, trace[i]).0
  }

  /** A turn from `st` to the first state of a run of turns makes a longer run. */
  lemma TurnsCons(l: Layout, c: Catalog, g: Grid, st: State, tail: seq<State>)
    requires st.queue.queue != [] && |tail| > 0 && tail[0] == FinishTurn(l, c, g, st).0
    requires Turns(l, c, g, tail)
    ensures Turns(l, c, g, [st] + tail)
  {
    var trace := [st] + tail;
    forall i | 0 <= i < |trace| - 1
      ensures trace[i].queue.queue != [] && trace[i + 1] == FinishTurn(l, c, g, trace[i]).0
    {
      if i > 0 {
        assert trace[i] == tail[i - 1] && trace[i + 1] == tail[i];
      }
    }
  }

  /** The states a drain passes through, from its first to its last. */
  lemma {:induction false} DrainTrace(l: Layout, c: Catalog, g: Grid, goal: (State, Outcome), st: State, fuel: nat)
      returns (trace: seq<State>)
    requires goal == Finish(l, c, g, st, fuel)
    ensures |trace| > 0 && trace[0] == st && trace[|trace| - 1] == goal.0
    ensures Turns(l, c, g, trace)
    decreases fuel
  {
    var going, next, rest := DrainTurnOn(l, c, g, goal, st, fuel);
    if going {
      var tail := DrainTrace(l, c, g, goal, next, rest);
      TurnsCons(l, c, g, st, tail);
      trace := [st] + tail;
    } else {
      trace := if goal.0 == st then [st] else [st, goal.0];
    }
  }

  /** The drain keeps the account, whatever it ends in. */
  lemma FinishAccounted(l: Layout, c: Catalog, size: Vec3, st0: State, st: State, p: Vec3, m: nat, fuel: nat)
    requires Accounted(st0, st, p, m)
    ensures Accounted(st0, Finish(l, c, Tiled(size), st, fuel).0, p, m)
  {
    var trace := DrainTrace(l, c, Tiled(size), Finish(l, c, Tiled(size), st, fuel), st, fuel);
    var i := 0;
    while i < |trace| - 1
      invariant 0 <= i < |trace| && Accounted(st0, trace[i], p, m)
    {
      TurnAccounted(l, c, size, st0, trace[i], p, m);
      i := i + 1;
    }
  }

  /** The drain keeps the health law. */
  lemma FinishLawful(l: Layout, c: Catalog, size: Vec3, st: State, fuel: nat)
    requires Lawful(l, c, size, st.cells)
    ensures Lawful(l, c, size, Finish(l, c, Tiled(size), st, fuel).0.cells)
  {
    var trace := DrainTrace(l, c, Tiled(size), Finish(l, c, Tiled(size), st, fuel), st, fuel);
    var i := 0;
    while i < |trace| - 1
      invariant 0 <= i < |trace| && Lawful(l, c, size, trace[i].cells)
    {
      TurnKeepsLaw(l, c, size, trace[i], trace[i + 1]);
      i := i + 1;
    }
  }

  // ---------------------------------------------------------------------
  // Undo settles the account.

  /** What the record holds for a cell is exactly what comes back. */
  lemma FreshIsAll(removed: set<nat>, b: Cell, n: nat)
    requires removed <= Below(n) && Live(b) && b.modules.value !! removed
    requires b.chosen.Some? ==> b.chosen.value !in removed
    ensures Fresh(removed, b, 0, n) == removed
  {
  }

  /** A stored cell of a periodic map is handed out in place. */
  lemma StoredInPlace(size: Vec3, cells: map<Vec3, Cell>, k: Vec3)
    requires Whole(size, cells) && k in cells
    ensures InPlace(Tiled(size), cells, k)
  {
    LookupIsLocate(size, cells, k);
    LocateInBox(size, k);
  }

  /** Cell by cell, adding back what the record holds gives back the
      candidates from before the collapse, and, away from `p`, the
      module. */
  lemma CellSettled(a: Cell, b: Cell, removed: set<nat>, named: bool, own: bool, m: nat, n: nat)
    requires AccountedAt(a, b, removed, named, own, m)
    requires Live(a) ==> a.modules.value <= Below(n)
    ensures named ==> AddedBack(b, removed, n).0 == a.modules && (!own ==> AddedBack(b, removed, n).1 == a.chosen)
    ensures !named ==> b.modules == a.modules && (!own ==> b.chosen == a.chosen)
  {
    if named {
      assert removed <= a.modules.value;
      FreshIsAll(removed, b, n);
    } else if Live(a) {
      assert b.modules.value + removed == b.modules.value;
    }
  }

  /** Every cell a record names on a periodic map is handed out in place. */
  lemma KeysInPlace(size: Vec3, cells: map<Vec3, Cell>, rec: Record)
    requires Whole(size, cells) && forall k :: k in rec.keys ==> k in cells
    ensures forall j :: 0 <= j < |rec.keys| ==> InPlace(Tiled(size), cells, rec.keys[j])
  {
    forall j | 0 <= j < |rec.keys| ensures InPlace(Tiled(size), cells, rec.keys[j]) {
      StoredInPlace(size, cells, rec.keys[j]);
    }
  }

  /** Adding back what the ledger's record holds, cell by cell, settles
      the ledger: every cell has its candidates from before, and every
      cell but `p` its module. */
  lemma LedgerSettled(n: nat, before: map<Vec3, Cell>, now: map<Vec3, Cell>, after: map<Vec3, Cell>, rec: Record, p: Vec3, m: nat)
    requires Ledger(before, now, rec, p, m) && AddedBackFrom(n, now, after, rec, 0)
    requires forall k :: k in before && Live(before[k]) ==> before[k].modules.value <= Below(n)
    ensures forall k :: k in before ==>
      k in after && after[k].modules == before[k].modules && (k != p ==> after[k].chosen == before[k].chosen)
  {
    assert rec.keys[0..] == rec.keys;
    forall k | k in before
      ensures k in after && after[k].modules == before[k].modules
      ensures k != p ==> after[k].chosen == before[k].chosen
    {
      CellSettled(before[k], now[k], Removed(rec, k), k in rec.keys, k == p, m, n);
    }
  }

  /** The key loop of `Undo` over the collapse's record succeeds and
      gives back every cell's candidates and, away from `p`, its module. */
  lemma UndoKeysAccounted(l: Layout, c: Catalog, size: Vec3, st0: State, st: State, p: Vec3, m: nat)
    requires Whole(size, st0.cells) && Accounted(st0, st, p, m)
    requires forall k :: k in st0.cells && Live(st0.cells[k]) ==> st0.cells[k].modules.value <= Below(c.n)
    ensures var rec := st.history.items[|st0.history.items|];
      var r := UndoKeys(l, c, Tiled(size), st.(history := R.Popped(st.history)), rec, 0);
      && r.1 == Ok
      && forall k :: k in st0.cells ==>
           k in r.0.cells && r.0.cells[k].modules == st0.cells[k].modules
           && (k != p ==> r.0.cells[k].chosen == st0.cells[k].chosen)
  {
    var rec := st.history.items[|st0.history.items|];
    var st1 := st.(history := R.Popped(st.history));
    assert Whole(size, st.cells);
    KeysInPlace(size, st.cells, rec);
    UndoKeysRestores(l, c, Tiled(size), st1, rec, 0);
    LedgerSettled(c.n, st0.cells, st.cells, UndoKeys(l, c, Tiled(size), st1, rec, 0).0.cells, rec, p, m);
  }

  /** `Undo` of one step after the collapse gives back every cell's
      candidates and module, and the history from before. */
  lemma UndoAccounted(l: Layout, c: Catalog, size: Vec3, st0: State, st: State, p: Vec3, m: nat)
    requires Whole(size, st0.cells) && Accounted(st0, st, p, m)
    requires forall k :: k in st0.cells && Live(st0.cells[k]) ==> st0.cells[k].modules.value <= Below(c.n)
    requires st0.cells[p].chosen.None? && R.Inv(st0.history)
    ensures st.history.size > 0 && |st.history.items| > 0
    ensures var r := UndoOne(l, c, Tiled(size), st);
      && r.1 == Ok && r.0.history == st0.history
      && forall k :: k in st0.cells ==> k in r.0.cells && Status(r.0.cells[k]) == Status(st0.cells[k])
  {
    UndoKeysAccounted(l, c, size, st0, st, p, m);
    assert R.Popped(st.history) == st0.history;
  }

  /** Rows the law governs: a live cell's row across direction `e` facing
      a live cell. */
  ghost predicate Governed(l: Layout, size: Vec3, cells: map<Vec3, Cell>, k: Vec3, e: nat) {
    && k in cells && Live(cells[k]) && e < DirCount(l) && size.x > 0 && size.z > 0
    && var q := TiledCell(size, cells, Step(l, k, e));
       q.Some? && Live(cells[q.value])
  }

  /** Lawful periodic maps with the same candidates agree on every row
      the law governs. */
  lemma LawfulAgree(l: Layout, c: Catalog, size: Vec3, a: map<Vec3, Cell>, b: map<Vec3, Cell>, k: Vec3, e: nat)
    requires Lawful(l, c, size, a) && Lawful(l, c, size, b) && a.Keys == b.Keys
    requires forall j :: j in a ==> b[j].modules == a[j].modules
    requires Governed(l, size, a, k, e)
    ensures e < |a[k].health| && e < |b[k].health| && b[k].health[e] == a[k].health[e]
  {
    assert LawAt(l, c, size, a, k, e) && LawAt(l, c, size, b, k, e);
    assert TiledCell(size, b, Step(l, k, e)) == TiledCell(size, a, Step(l, k, e));
  }

  // ---------------------------------------------------------------------
  // The round trip.

  /** A successful collapse of an open cell whose history has room is
      the opening, the removal of every other candidate of the cell, and
      the drain; only the work area and the build queue change after. */
  lemma CollapseSteps(l: Layout, c: Catalog, size: Vec3, st: State, st1: State, p: Vec3, m: nat, fuel: nat)
    requires st.history.size > 0 && R.Inv(st.history) && |st.history.items| < st.history.size
    requires p in st.cells && st.cells[p].chosen.None?
    requires CollapseTo(l, c, Tiled(size), st, p, m, fuel) == (st1, Ok)
    ensures var o := Opened(st, p, m);
      && Live(o.cells[p]) && o.cells[p].modules == st.cells[p].modules
      && var r0 := RemoveOnce(l, c, Tiled(size), o, p, o.cells[p].modules.value - {m});
      && r0.2 == Ok
      && var f := Finish(l, c, Tiled(size), r0.0, fuel);
      && st1.cells == f.0.cells && st1.history == f.0.history
  {
  }

  /** One step of `Undo` from a state the collapse of `p` to `m` has
      brought the lawful periodic map `st` to, whatever the drain ended
      in: the undo succeeds and gives back the history, every cell's
      candidates and module, and every counter the law governs. */
  lemma AccountedThenUndo(l: Layout, c: Catalog, size: Vec3, st: State, st1: State, p: Vec3, m: nat)
    requires WellFormed(l, c) && Lawful(l, c, size, st.cells)
    requires forall k :: k in st.cells && Live(st.cells[k]) ==> st.cells[k].modules.value <= Below(c.n)
    requires R.Inv(st.history) && p in st.cells && st.cells[p].chosen.None?
    requires Accounted(st, st1, p, m) && Lawful(l, c, size, st1.cells)
    ensures st1.history.size > 0 && |st1.history.items| > 0
    ensures var r := UndoOne(l, c, Tiled(size), st1);
      && r.1 == Ok && r.0.history == st.history && r.0.cells.Keys == st.cells.Keys
      && (forall k :: k in st.cells ==> r.0.cells[k].modules == st.cells[k].modules && r.0.cells[k].chosen == st.cells[k].chosen)
      && (forall k, e: nat :: Governed(l, size, st.cells, k, e) ==>
            e < |r.0.cells[k].health| && e < |st.cells[k].health| && r.0.cells[k].health[e] == st.cells[k].health[e])
  {
    var g := Tiled(size);
    UndoAccounted(l, c, size, st, st1, p, m);
    UndoKeepsLaw(l, c, size, st1, 1);
    var r := UndoOne(l, c, g, st1);
    assert UndoSteps(l, c, g, st1, 1) == r;
    WholeKeys(size, st.cells, r.0.cells);
    forall k, e: nat | Governed(l, size, st.cells, k, e)
      ensures e < |r.0.cells[k].health| && e < |st.cells[k].health| && r.0.cells[k].health[e] == st.cells[k].health[e]
    {
      LawfulAgree(l, c, size, st.cells, r.0.cells, k, e);
    }
  }

  /** A successful `Collapse(m)` of an open cell on a lawful periodic map
      whose history has room, followed by one step of `Undo`: the undo
      succeeds and gives back the history, every cell's candidates and
      module, and every counter the law governs. */
  lemma CollapseThenUndo(l: Layout, c: Catalog, size: Vec3, st: State, st1: State, p: Vec3, m: nat, fuel: nat)
    requires WellFormed(l, c) && Lawful(l, c, size, st.cells)
    requires forall k :: k in st.cells && Live(st.cells[k]) ==> st.cells[k].modules.value <= Below(c.n)
    requires st.history.size > 0 && R.Inv(st.history) && |st.history.items| < st.history.size
    requires p in st.cells && st.cells[p].chosen.None?
    requires CollapseTo(l, c, Tiled(size), st, p, m, fuel) == (st1, Ok)
    ensures st1.history.size > 0 && |st1.history.items| > 0
    ensures var r := UndoOne(l, c, Tiled(size), st1);
      && r.1 == Ok && r.0.history == st.history && r.0.cells.Keys == st.cells.Keys
      && (forall k :: k in st.cells ==> r.0.cells[k].modules == st.cells[k].modules && r.0.cells[k].chosen == st.cells[k].chosen)
      && (forall k, e: nat :: Governed(l, size, st.cells, k, e) ==>
            e < |r.0.cells[k].health| && e < |st.cells[k].health| && r.0.cells[k].health[e] == st.cells[k].health[e])
  {
    var g := Tiled(size);
    CollapseSteps(l, c, size, st, st1, p, m, fuel);
    var o := Opened(st, p, m);
    var r0 := RemoveOnce(l, c, g, o, p, o.cells[p].modules.value - {m});
    OpenedAccounted(st, p, m);
    OpenedKeepsLaw(l, c, size, st, p, m);
    RemoveAccounted(l, c, size, st, o, p, o.cells[p].modules.value - {m}, p, m);
    FinishAccounted(l, c, size, st, r0.0, p, m, fuel);
    RemoveKeepsLaw(l, c, size, o, p, o.cells[p].modules.value - {m});
    FinishLawful(l, c, size, r0.0, fuel);
    assert Accounted(st, st1, p, m) && Lawful(l, c, size, st1.cells);
    AccountedThenUndo(l, c, size, st, st1, p, m);
  }

  /** A collapse that ends in a contradiction is the opening, the removal
      of every other candidate of the cell, and, when that removal leaves
      a candidate, the drain. */
  lemma ContradictionSteps(l: Layout, c: Catalog, size: Vec3, st: State, p: Vec3, m: nat, fuel: nat)
    requires st.history.size > 0 && R.Inv(st.history) && |st.history.items| < st.history.size
    requires p in st.cells && st.cells[p].chosen.None?
    requires CollapseTo(l, c, Tiled(size), st, p, m, fuel).1 == Contradiction
    ensures var o := Opened(st, p, m);
      && Live(o.cells[p]) && o.cells[p].modules == st.cells[p].modules
      && var r0 := RemoveOnce(l, c, Tiled(size), o, p, o.cells[p].modules.value - {m});
      && r0.2 != Fault
      && var st1 := CollapseTo(l, c, Tiled(size), st, p, m, fuel).0;
      && (st1 == r0.0 || st1 == Finish(l, c, Tiled(size), r0.0, fuel).0)
  {
  }

  /** The backtracking case of `Collapse(targets)`: a `Collapse(m)` of an
      open cell on a lawful periodic map whose history has room ends in a
      contradiction, the removal queue is cleared, and one step of `Undo`
      follows. The undo succeeds and gives back the history, every cell's
      candidates and module, and every counter the law governs. */
  lemma ContradictionThenUndo(l: Layout, c: Catalog, size: Vec3, st: State, p: Vec3, m: nat, fuel: nat)
    requires WellFormed(l, c) && Lawful(l, c, size, st.cells)
    requires forall k :: k in st.cells && Live(st.cells[k]) ==> st.cells[k].modules.value <= Below(c.n)
    requires st.history.size > 0 && R.Inv(st.history) && |st.history.items| < st.history.size
    requires p in st.cells && st.cells[p].chosen.None?
    requires CollapseTo(l, c, Tiled(size), st, p, m, fuel).1 == Contradiction
    ensures var st1 := CollapseTo(l, c, Tiled(size), st, p, m, fuel).0.(queue := Q.Empty());
      && st1.history.size > 0 && |st1.history.items| > 0
      && var r := UndoOne(l, c, Tiled(size), st1);
      && r.1 == Ok && r.0.history == st.history && r.0.cells.Keys == st.cells.Keys
      && (forall k :: k in st.cells ==> r.0.cells[k].modules == st.cells[k].modules && r.0.cells[k].chosen == st.cells[k].chosen)
      && (forall k, e: nat :: Governed(l, size, st.cells, k, e) ==>
            e < |r.0.cells[k].health| && e < |st.cells[k].health| && r.0.cells[k].health[e] == st.cells[k].health[e])
  {
    var g := Tiled(size);
    ContradictionSteps(l, c, size, st, p, m, fuel);
    var o := Opened(st, p, m);
    var r0 := RemoveOnce(l, c, g, o, p, o.cells[p].modules.value - {m});
    OpenedAccounted(st, p, m);
    OpenedKeepsLaw(l, c, size, st, p, m);
    RemoveAccounted(l, c, size, st, o, p, o.cells[p].modules.value - {m}, p, m);
    FinishAccounted(l, c, size, st, r0.0, p, m, fuel);
    RemoveKeepsLaw(l, c, size, o, p, o.cells[p].modules.value - {m});
    FinishLawful(l, c, size, r0.0, fuel);
    var st1 := CollapseTo(l, c, g, st, p, m, fuel).0;
    assert Accounted(st, st1, p, m) && Lawful(l, c, size, st1.cells);
    AccountedThenUndo(l, c, size, st, st1.(queue := Q.Empty()), p, m);
  }
}

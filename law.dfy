/** The health counting law of a periodic map (TileMap, TilingMap): every
    live cell's counter `health[e][x]` is the number of candidates of the
    live cell across direction `e` that allow `x` from the opposite side.
    The law is what makes the counters mean something; this module proves
    that removing candidates keeps it, and what follows from it: a counter
    never goes below zero, and a candidate is queued exactly when it loses
    its last supporter. */
module HealthLaw {
  import opened Basics
  import opened Catalogs
  import opened Grids
  import opened Propagation
  import Q = QueueDictionaries
  import RingBuffers

  /** The cells of a periodic map: exactly the positions of its box. */
  ghost predicate Whole(size: Vec3, cells: map<Vec3, Cell>) {
    size.x > 0 && size.z > 0 && forall p {:trigger InBox(size, p)} :: p in cells <==> InBox(size, p)
  }

  /** In a whole map a lookup is the wrapped position. */
  lemma LookupIsLocate(size: Vec3, cells: map<Vec3, Cell>, p: Vec3)
    requires Whole(size, cells)
    ensures TiledCell(size, cells, p) == Locate(size, p)
  {
    LocateInBox(size, p);
  }

  /** Neighbourhood is mutual: the cell across `e` from `k` is `p` exactly
      when the cell across the opposite direction from `p` is `k`. */
  lemma Mutual(l: Layout, size: Vec3, cells: map<Vec3, Cell>, k: Vec3, p: Vec3, e: nat)
    requires Whole(size, cells) && k in cells && p in cells && e < DirCount(l)
    ensures Opp(l, e) < DirCount(l)
    ensures TiledCell(size, cells, Step(l, k, e)) == Some(p) <==> TiledCell(size, cells, Step(l, p, Opp(l, e))) == Some(k)
  {
    OppNegates(l, e);
    var o := Opp(l, e);
    LookupIsLocate(size, cells, Step(l, k, e));
    LookupIsLocate(size, cells, Step(l, p, o));
    if Locate(size, Step(l, k, e)) == Some(p) {
      LocateBack(size, k, Dir(l, e));
      assert Step(l, p, o) == Add(p, Neg(Dir(l, e)));
    }
    if Locate(size, Step(l, p, o)) == Some(k) {
      OppNegates(l, o);
      LocateBack(size, p, Dir(l, o));
      assert Step(l, k, e) == Add(k, Neg(Dir(l, o)));
    }
  }

  // ---------------------------------------------------------------------
  // What the direction loop of `RemoveModules` does, in closed form.

  /** Row `e` of the cell at `k` faces `p` across one of the directions
      `i` up to `j` of the loop at `p`. */
  predicate Hit(l: Layout, size: Vec3, cells: map<Vec3, Cell>, p: Vec3, i: nat, j: nat, k: Vec3, e: nat) {
    && e < DirCount(l) && Opp(l, e) < DirCount(l) && i <= Opp(l, e) < j
    && TiledCell(size, cells, Step(l, p, Opp(l, e))) == Some(k)
  }

  /** What a direction loop does to the rows facing the cell: lower them
      by the support of the removed modules `t`, or raise them by what the
      re-added module `m` allows. */
  datatype Change = Drop(t: set<nat>) | Raise(m: nat)

  /** A row facing the cell across direction `e`, after the change made
      across the cell's direction `d == Opp(e)`. */
  function Changed(c: Catalog, ch: Change, row: seq<int>, d: nat): (r: seq<int>)
    ensures |r| == |row|
  {
    match ch
    case Drop(t) => Dropped(c, row, t, d)
    case Raise(m) => if m < |c.neighbours| && d < |c.neighbours[m]| then Raised(row, c.neighbours[m][d]) else row
  }

  /** Cell `b` is cell `a` with every row facing `p` across directions `i`
      up to `j` changed, if `a` is live. */
  predicate CellChanged(l: Layout, c: Catalog, size: Vec3, cells: map<Vec3, Cell>, p: Vec3, ch: Change, i: nat, j: nat,
                        k: Vec3, a: Cell, b: Cell) {
    && b.position == a.position && b.modules == a.modules && b.chosen == a.chosen
    && |b.health| == |a.health|
    && forall e :: 0 <= e < |a.health| ==>
         b.health[e] == (if Live(a) && Hit(l, size, cells, p, i, j, k, e) then Changed(c, ch, a.health[e], Opp(l, e)) else a.health[e])
  }

  predicate AllChanged(l: Layout, c: Catalog, size: Vec3, a: map<Vec3, Cell>, b: map<Vec3, Cell>,
                       p: Vec3, ch: Change, i: nat, j: nat) {
    && a.Keys == b.Keys
    && forall k :: k in a ==> k in b && CellChanged(l, c, size, a, p, ch, i, j, k, a[k], b[k])
  }

  /** The direction loop from direction `i` on lowers, in every live cell,
      exactly the rows facing `p`, each once, by what `t` supported. */
  lemma {:induction false} DropDirsClosed(l: Layout, c: Catalog, size: Vec3, st: State, p: Vec3, t: set<nat>, i: nat)
    requires i <= DirCount(l)
    ensures AllChanged(l, c, size, st.cells, DropDirs(l, c, Tiled(size), st, p, t, i).cells, p, Drop(t), i, DirCount(l))
    decreases DirCount(l) - i
  {
    if i == DirCount(l) {
      forall k | k in st.cells
        ensures CellChanged(l, c, size, st.cells, p, Drop(t), i, i, k, st.cells[k], st.cells[k])
      {
      }
    } else {
      var st1 := DropToward(l, c, Tiled(size), st, p, t, i);
      DropDirsClosed(l, c, size, st1, p, t, i + 1);
      DropTowardClosed(l, c, size, st, p, t, i);
      Compose(l, c, size, st.cells, st1.cells, DropDirs(l, c, Tiled(size), st1, p, t, i + 1).cells, p, Drop(t), i);
    }
  }

  /** The cells after the row `o` of the live cell `q`, if any, is changed
      as seen across direction `i`. */
  function Touched(c: Catalog, a: map<Vec3, Cell>, q: Option<Vec3>, o: nat, ch: Change, i: nat): map<Vec3, Cell>
    requires q.Some? ==> q.value in a
  {
    if q.None? || !Live(a[q.value]) || o >= |a[q.value].health| then a
    else
      var nb := a[q.value];
      a[q.value := nb.(health := nb.health[o := Changed(c, ch, nb.health[o], i)])]
  }

  /** Changing the row of the cell across direction `i` from `p` that
      faces back toward `p` changes exactly the rows facing `p` across `i`. */
  lemma TouchedChanged(l: Layout, c: Catalog, size: Vec3, a: map<Vec3, Cell>, p: Vec3, ch: Change, i: nat)
    requires i < DirCount(l)
    ensures Opp(l, i) < DirCount(l)
    ensures AllChanged(l, c, size, a, Touched(c, a, TiledCell(size, a, Step(l, p, i)), Opp(l, i), ch, i), p, ch, i, i + 1)
  {
    var q := TiledCell(size, a, Step(l, p, i));
    OppNegates(l, i);
    var b := Touched(c, a, q, Opp(l, i), ch, i);
    forall k | k in a ensures k in b && CellChanged(l, c, size, a, p, ch, i, i + 1, k, a[k], b[k]) {
      forall e | 0 <= e < |a[k].health|
        ensures b[k].health[e] == (if Live(a[k]) && Hit(l, size, a, p, i, i + 1, k, e) then Changed(c, ch, a[k].health[e], Opp(l, e)) else a[k].health[e])
      {
        TouchedRow(l, c, size, a, b, p, ch, i, k, e);
      }
    }
  }

  /** Row `e` of the cell at `k` after `Touched`: changed exactly when it
      faces `p` across direction `i`. */
  lemma TouchedRow(l: Layout, c: Catalog, size: Vec3, a: map<Vec3, Cell>, b: map<Vec3, Cell>, p: Vec3, ch: Change, i: nat, k: Vec3, e: nat)
    requires i < DirCount(l) && Opp(l, i) < DirCount(l) && Opp(l, Opp(l, i)) == i
    requires b == Touched(c, a, TiledCell(size, a, Step(l, p, i)), Opp(l, i), ch, i)
    requires k in a && e < |a[k].health|
    ensures k in b && |b[k].health| == |a[k].health|
    ensures b[k].health[e] == (if Live(a[k]) && Hit(l, size, a, p, i, i + 1, k, e) then Changed(c, ch, a[k].health[e], Opp(l, e)) else a[k].health[e])
  {
    var q := TiledCell(size, a, Step(l, p, i));
    if e < DirCount(l) {
      OppPairs(l, i, e);
    }
    assert Hit(l, size, a, p, i, i + 1, k, e) <==> q == Some(k) && e == Opp(l, i);
  }

  /** One turn of the direction loop lowers the row facing `p` across
      direction `i` of the neighbour there, and nothing else. */
  lemma DropTowardClosed(l: Layout, c: Catalog, size: Vec3, st: State, p: Vec3, t: set<nat>, i: nat)
    requires i < DirCount(l)
    ensures AllChanged(l, c, size, st.cells, DropToward(l, c, Tiled(size), st, p, t, i).cells, p, Drop(t), i, i + 1)
  {
    var q := TiledCell(size, st.cells, Step(l, p, i));
    assert Resolve(Tiled(size), st.cells, Step(l, p, i)) == (st.cells, q);
    TouchedChanged(l, c, size, st.cells, p, Drop(t), i);
    assert DropToward(l, c, Tiled(size), st, p, t, i).cells == Touched(c, st.cells, q, Opp(l, i), Drop(t), i);
  }

  /** The direction loop of `AddModules` for module `m`, from direction
      `i` on, raises in every live cell exactly the rows facing `p`, each
      once, by what `m` allows. */
  lemma {:induction false} RaiseDirsClosed(l: Layout, c: Catalog, size: Vec3, cells: map<Vec3, Cell>, p: Vec3, m: nat, i: nat)
    requires i <= DirCount(l)
    ensures AllChanged(l, c, size, cells, RaiseDirs(l, c, Tiled(size), cells, p, m, i), p, Raise(m), i, DirCount(l))
    decreases DirCount(l) - i
  {
    if i == DirCount(l) {
      forall k | k in cells
        ensures CellChanged(l, c, size, cells, p, Raise(m), i, i, k, cells[k], cells[k])
      {
      }
    } else {
      var c1 := RaiseToward(l, c, Tiled(size), cells, p, m, i);
      RaiseDirsClosed(l, c, size, c1, p, m, i + 1);
      RaiseTowardClosed(l, c, size, cells, p, m, i);
      Compose(l, c, size, cells, c1, RaiseDirs(l, c, Tiled(size), c1, p, m, i + 1), p, Raise(m), i);
    }
  }

  /** One turn of that loop raises the row facing `p` across direction `i`
      of the neighbour there, and nothing else. */
  lemma RaiseTowardClosed(l: Layout, c: Catalog, size: Vec3, a: map<Vec3, Cell>, p: Vec3, m: nat, i: nat)
    requires i < DirCount(l)
    ensures AllChanged(l, c, size, a, RaiseToward(l, c, Tiled(size), a, p, m, i), p, Raise(m), i, i + 1)
  {
    var q := TiledCell(size, a, Step(l, p, i));
    assert Resolve(Tiled(size), a, Step(l, p, i)) == (a, q);
    TouchedChanged(l, c, size, a, p, Raise(m), i);
    var o := Opp(l, i);
    if q.Some? && Live(a[q.value]) && o < |a[q.value].health| && !(m < |c.neighbours| && i < |c.neighbours[m]|) {
      var nb := a[q.value];
      assert nb.health[o := nb.health[o]] == nb.health;
      assert nb.(health := nb.health) == nb;
    }
    assert RaiseToward(l, c, Tiled(size), a, p, m, i) == Touched(c, a, q, o, Raise(m), i);
  }

  /** Changing the rows across direction `i` and then those across the
      directions after it changes those across all of them. */
  lemma Compose(l: Layout, c: Catalog, size: Vec3, a: map<Vec3, Cell>, m: map<Vec3, Cell>, b: map<Vec3, Cell>,
                p: Vec3, ch: Change, i: nat)
    requires i < DirCount(l)
    requires AllChanged(l, c, size, a, m, p, ch, i, i + 1)
    requires AllChanged(l, c, size, m, b, p, ch, i + 1, DirCount(l))
    ensures AllChanged(l, c, size, a, b, p, ch, i, DirCount(l))
  {
    forall k | k in a ensures k in b && CellChanged(l, c, size, a, p, ch, i, DirCount(l), k, a[k], b[k]) {
      assert CellChanged(l, c, size, a, p, ch, i, i + 1, k, a[k], m[k]);
      assert CellChanged(l, c, size, m, p, ch, i + 1, DirCount(l), k, m[k], b[k]);
      forall e | 0 <= e < |a[k].health|
        ensures b[k].health[e] == (if Live(a[k]) && Hit(l, size, a, p, i, DirCount(l), k, e) then Changed(c, ch, a[k].health[e], Opp(l, e)) else a[k].health[e])
      {
        assert Hit(l, size, m, p, i + 1, DirCount(l), k, e) == Hit(l, size, a, p, i + 1, DirCount(l), k, e);
        assert Hit(l, size, a, p, i, DirCount(l), k, e) <==> Hit(l, size, a, p, i, i + 1, k, e) || Hit(l, size, a, p, i + 1, DirCount(l), k, e);
      }
    }
  }

  // ---------------------------------------------------------------------
  // The law.

  /** The law at row `e` of the cell at `k`: a live cell has a full row
      there, and if the cell across `e` is live, the row counts, for each
      module `x`, the candidates there that allow `x` towards `k`. */
  ghost predicate LawAt(l: Layout, c: Catalog, size: Vec3, cells: map<Vec3, Cell>, k: Vec3, e: nat)
    requires k in cells
  {
    Live(cells[k]) && e < DirCount(l) ==>
      && e < |cells[k].health| && |cells[k].health[e]| == c.n
      && var q := TiledCell(size, cells, Step(l, k, e));
         q.Some? && Live(cells[q.value]) ==>
           forall x :: 0 <= x < c.n ==> cells[k].health[e][x] == Support(c, cells[q.value].modules.value, Opp(l, e), x)
  }

  ghost predicate Law(l: Layout, c: Catalog, size: Vec3, cells: map<Vec3, Cell>) {
    forall k, e :: k in cells && 0 <= e < DirCount(l) ==> LawAt(l, c, size, cells, k, e)
  }

  /** `RemoveModules(s, false)` on a periodic map keeps the law. */
  lemma RemoveKeepsLaw(l: Layout, c: Catalog, size: Vec3, st: State, p: Vec3, s: set<nat>)
    requires Lawful(l, c, size, st.cells)
    ensures Whole(size, RemoveOnce(l, c, Tiled(size), st, p, s).0.cells)
    ensures Law(l, c, size, RemoveOnce(l, c, Tiled(size), st, p, s).0.cells)
  {
    if p in st.cells && Live(st.cells[p]) {
      var a := st.cells;
      var before := a[p].modules.value;
      var t := s * before;
      var st1 := st.(history := RecordRemoval(st.history, p, t));
      var m := DropDirs(l, c, Tiled(size), st1, p, t, 0).cells;
      DropDirsClosed(l, c, size, st1, p, t, 0);
      CutDown(before, s);
      var b := m[p := m[p].(modules := Some(before - t))];
      assert RemoveOnce(l, c, Tiled(size), st, p, s).0.cells == b;
      forall k, e | k in b && 0 <= e < DirCount(l) ensures LawAt(l, c, size, b, k, e) {
        LawAfterDrop(l, c, size, a, m, p, t, k, e);
      }
    }
  }

  /** The law at one row after the direction loop and the cut. */
  lemma LawAfterDrop(l: Layout, c: Catalog, size: Vec3, a: map<Vec3, Cell>, m: map<Vec3, Cell>,
                     p: Vec3, t: set<nat>, k: Vec3, e: nat)
    requires Whole(size, a) && p in a && Live(a[p]) && t <= a[p].modules.value
    requires AllChanged(l, c, size, a, m, p, Drop(t), 0, DirCount(l))
    requires k in a && e < DirCount(l) && LawAt(l, c, size, a, k, e)
    ensures p in m && k in m
    ensures LawAt(l, c, size, m[p := m[p].(modules := Some(a[p].modules.value - t))], k, e)
  {
    var b := m[p := m[p].(modules := Some(a[p].modules.value - t))];
    assert CellChanged(l, c, size, a, p, Drop(t), 0, DirCount(l), k, a[k], m[k]);
    if Live(a[k]) {
      var q := TiledCell(size, a, Step(l, k, e));
      assert TiledCell(size, b, Step(l, k, e)) == q;
      if q.Some? {
        Mutual(l, size, a, k, q.value, e);
        assert CellChanged(l, c, size, a, p, Drop(t), 0, DirCount(l), q.value, a[q.value], m[q.value]);
        if q.value == p {
          assert Hit(l, size, a, p, 0, DirCount(l), k, e);
          forall x | 0 <= x < c.n
            ensures b[k].health[e][x] == Support(c, a[p].modules.value - t, Opp(l, e), x)
          {
            SupportDiff(c, a[p].modules.value, t, Opp(l, e), x);
          }
        } else {
          Mutual(l, size, a, k, p, e);
          assert !Hit(l, size, a, p, 0, DirCount(l), k, e);
        }
      }
    }
  }

  /** Under the law, the direction loop never takes a counter of a live
      neighbour below zero (the editor build's guard never fires), and the
      candidates it queues at that neighbour are exactly those that had
      support from the cell and have none left. */
  lemma QueuedExactly(l: Layout, c: Catalog, size: Vec3, cells: map<Vec3, Cell>, k: Vec3, e: nat, p: Vec3, t: set<nat>)
    requires Whole(size, cells) && k in cells && e < DirCount(l) && LawAt(l, c, size, cells, k, e)
    requires Live(cells[k]) && TiledCell(size, cells, Step(l, k, e)) == Some(p) && Live(cells[p])
    requires t <= cells[p].modules.value
    ensures e < |cells[k].health|
    ensures forall x :: 0 <= x < c.n ==> Dropped(c, cells[k].health[e], t, Opp(l, e))[x] >= 0
    ensures Emptied(c, cells[k].health[e], t, Opp(l, e), cells[k].modules.value)
         == set x | x in cells[k].modules.value && x < c.n
                    && Support(c, cells[p].modules.value, Opp(l, e), x) > 0
                    && Support(c, cells[p].modules.value - t, Opp(l, e), x) == 0
  {
    var before := cells[p].modules.value;
    forall x | 0 <= x < c.n
      ensures Dropped(c, cells[k].health[e], t, Opp(l, e))[x] == Support(c, before - t, Opp(l, e), x)
    {
      SupportDiff(c, before, t, Opp(l, e), x);
    }
  }

  /** The law at one row after the direction loop of `AddModules` for a
      module `m` that was not a candidate, and its addition. */
  lemma LawAfterRaise(l: Layout, c: Catalog, size: Vec3, a: map<Vec3, Cell>, b: map<Vec3, Cell>,
                      p: Vec3, m: nat, k: Vec3, e: nat)
    requires WellFormed(l, c) && m < c.n
    requires Whole(size, a) && p in a && Live(a[p]) && m !in a[p].modules.value
    requires AllChanged(l, c, size, a, b, p, Raise(m), 0, DirCount(l))
    requires k in a && e < DirCount(l) && LawAt(l, c, size, a, k, e)
    ensures p in b && k in b
    ensures LawAt(l, c, size, b[p := b[p].(modules := Some(a[p].modules.value + {m}))], k, e)
  {
    var d := b[p := b[p].(modules := Some(a[p].modules.value + {m}))];
    assert CellChanged(l, c, size, a, p, Raise(m), 0, DirCount(l), k, a[k], b[k]);
    if Live(a[k]) {
      var q := TiledCell(size, a, Step(l, k, e));
      assert TiledCell(size, d, Step(l, k, e)) == q;
      if q.Some? {
        Mutual(l, size, a, k, q.value, e);
        assert CellChanged(l, c, size, a, p, Raise(m), 0, DirCount(l), q.value, a[q.value], b[q.value]);
        if q.value == p {
          assert Hit(l, size, a, p, 0, DirCount(l), k, e);
          forall x | 0 <= x < c.n
            ensures d[k].health[e][x] == Support(c, a[p].modules.value + {m}, Opp(l, e), x)
          {
            SupportInsert(c, a[p].modules.value, m, Opp(l, e), x);
          }
        } else {
          Mutual(l, size, a, k, p, e);
          assert !Hit(l, size, a, p, 0, DirCount(l), k, e);
        }
      }
    }
  }

  /** A periodic map whose cells keep the law. */
  ghost predicate Lawful(l: Layout, c: Catalog, size: Vec3, cells: map<Vec3, Cell>) {
    Whole(size, cells) && Law(l, c, size, cells)
  }

  /** The module loop of `AddModules` keeps the law. */
  lemma {:induction false} AddEachKeepsLaw(l: Layout, c: Catalog, size: Vec3, cells: map<Vec3, Cell>, p: Vec3, s: set<nat>, m: nat)
    requires WellFormed(l, c) && Lawful(l, c, size, cells)
    ensures Lawful(l, c, size, AddEach(l, c, Tiled(size), cells, p, s, m))
    decreases c.n - m
  {
    if m < c.n && p in cells && Live(cells[p]) {
      var next := AddTurn(l, c, Tiled(size), cells, p, s, m);
      AddTurnKeepsLaw(l, c, size, cells, p, s, m);
      AddEachKeepsLaw(l, c, size, next, p, s, m + 1);
      assert AddEach(l, c, Tiled(size), cells, p, s, m) == AddEach(l, c, Tiled(size), next, p, s, m + 1);
    }
  }

  /** One turn of the module loop of `AddModules` keeps the law. */
  lemma AddTurnKeepsLaw(l: Layout, c: Catalog, size: Vec3, cells: map<Vec3, Cell>, p: Vec3, s: set<nat>, m: nat)
    requires WellFormed(l, c) && Lawful(l, c, size, cells)
    requires m < c.n && p in cells && Live(cells[p])
    ensures Lawful(l, c, size, AddTurn(l, c, Tiled(size), cells, p, s, m))
  {
    if m in s && m !in cells[p].modules.value && cells[p].chosen != Some(m) {
      AddOneKeepsLaw(l, c, size, cells, p, m);
    }
  }

  /** Adding one module that was not a candidate keeps the law. */
  lemma AddOneKeepsLaw(l: Layout, c: Catalog, size: Vec3, cells: map<Vec3, Cell>, p: Vec3, m: nat)
    requires WellFormed(l, c) && Lawful(l, c, size, cells)
    requires m < c.n && p in cells && Live(cells[p]) && m !in cells[p].modules.value
    ensures Lawful(l, c, size, Added(l, c, Tiled(size), cells, p, m))
  {
    var c1 := RaiseDirs(l, c, Tiled(size), cells, p, m, 0);
    RaiseDirsClosed(l, c, size, cells, p, m, 0);
    var c2 := c1[p := c1[p].(modules := Some(c1[p].modules.value + {m}))];
    assert c2 == c1[p := c1[p].(modules := Some(cells[p].modules.value + {m}))];
    forall k, e | k in c2 && 0 <= e < DirCount(l) ensures LawAt(l, c, size, c2, k, e) {
      LawAfterRaise(l, c, size, cells, c1, p, m, k, e);
    }
  }

  /** The law does not look at which module a cell collapsed to. */
  lemma LawIgnoresChoice(l: Layout, c: Catalog, size: Vec3, cells: map<Vec3, Cell>, p: Vec3, v: Option<nat>)
    requires Whole(size, cells) && Law(l, c, size, cells) && p in cells
    ensures Whole(size, cells[p := cells[p].(chosen := v)])
    ensures Law(l, c, size, cells[p := cells[p].(chosen := v)])
  {
    var b := cells[p := cells[p].(chosen := v)];
    forall k, e | k in b && 0 <= e < DirCount(l) ensures LawAt(l, c, size, b, k, e) {
      assert LawAt(l, c, size, cells, k, e);
      if Live(b[k]) {
        assert TiledCell(size, b, Step(l, k, e)) == TiledCell(size, cells, Step(l, k, e));
      }
    }
  }

  /** Forgetting a cell keeps the law: the law speaks of live cells only. */
  lemma LawIgnoresForgotten(l: Layout, c: Catalog, size: Vec3, cells: map<Vec3, Cell>, p: Vec3)
    requires Whole(size, cells) && Law(l, c, size, cells) && p in cells
    ensures Whole(size, cells[p := Forgotten(cells[p])])
    ensures Law(l, c, size, cells[p := Forgotten(cells[p])])
  {
    var b := cells[p := Forgotten(cells[p])];
    forall k, e | k in b && 0 <= e < DirCount(l) ensures LawAt(l, c, size, b, k, e) {
      assert LawAt(l, c, size, cells, k, e);
      if Live(b[k]) {
        assert TiledCell(size, b, Step(l, k, e)) == TiledCell(size, cells, Step(l, k, e));
      }
    }
  }

  /** `AddModules` on a periodic map keeps the law. */
  lemma AddBackKeepsLaw(l: Layout, c: Catalog, size: Vec3, st: State, p: Vec3, s: set<nat>)
    requires WellFormed(l, c) && Lawful(l, c, size, st.cells)
    ensures Whole(size, AddBack(l, c, Tiled(size), st, p, s).0.cells)
    ensures Law(l, c, size, AddBack(l, c, Tiled(size), st, p, s).0.cells)
  {
    if p in st.cells && Live(st.cells[p]) {
      var cells := AddEach(l, c, Tiled(size), st.cells, p, s, 0);
      AddEachKeepsLaw(l, c, size, st.cells, p, s, 0);
      if cells[p].chosen.Some? && cells[p].modules.value != {} {
        LawIgnoresChoice(l, c, size, cells, p, None);
      }
    }
  }

  /** One turn of the drain keeps the law. */
  lemma TurnKeepsLaw(l: Layout, c: Catalog, size: Vec3, st: State, next: State)
    requires st.queue.queue != [] && Lawful(l, c, size, st.cells)
    requires next == FinishTurn(l, c, Tiled(size), st).0
    ensures Lawful(l, c, size, next.cells)
  {
    var key := st.queue.queue[0];
    var s := if key in st.queue.dict then st.queue.dict[key] else {};
    var st1 := st.(queue := Q.Dequeued(st.queue));
    var q := TiledCell(size, st.cells, key);
    assert Resolve(Tiled(size), st.cells, key) == (st.cells, q);
    if q.Some? && st.cells[q.value].chosen.None? {
      RemoveKeepsLaw(l, c, size, st1, q.value, s);
      assert FinishTurn(l, c, Tiled(size), st).0 == RemoveOnce(l, c, Tiled(size), st1, q.value, s).0;
    } else {
      assert FinishTurn(l, c, Tiled(size), st).0 == st1;
    }
  }

  // ---------------------------------------------------------------------
  // Removing and adding back.

  /** Direction `e` of the cell at `k` faces the cell at `p`. */
  predicate Faces(l: Layout, size: Vec3, cells: map<Vec3, Cell>, k: Vec3, e: nat, p: Vec3) {
    e < DirCount(l) && TiledCell(size, cells, Step(l, k, e)) == Some(p)
  }

  /** `b` differs from `a` only in the candidates at `p` and in rows of
      live cells that face `p`. */
  ghost predicate OnlyFacing(l: Layout, size: Vec3, a: map<Vec3, Cell>, b: map<Vec3, Cell>, p: Vec3) {
    && a.Keys == b.Keys
    && forall k :: k in a ==>
         && k in b && b[k].position == a[k].position && b[k].chosen == a[k].chosen
         && Live(b[k]) == Live(a[k]) && (k != p ==> b[k].modules == a[k].modules)
         && |b[k].health| == |a[k].health|
         && forall e :: 0 <= e < |a[k].health| && !(Live(a[k]) && Faces(l, size, a, k, e, p)) ==> b[k].health[e] == a[k].health[e]
  }

  lemma OnlyFacingTrans(l: Layout, size: Vec3, a: map<Vec3, Cell>, b: map<Vec3, Cell>, d: map<Vec3, Cell>, p: Vec3)
    requires OnlyFacing(l, size, a, b, p) && OnlyFacing(l, size, b, d, p)
    ensures OnlyFacing(l, size, a, d, p)
  {
    forall k | k in a ensures k in d && |d[k].health| == |a[k].health|
      && forall e :: 0 <= e < |a[k].health| && !(Live(a[k]) && Faces(l, size, a, k, e, p)) ==> d[k].health[e] == a[k].health[e]
    {
      forall e | 0 <= e < |a[k].health| && !(Live(a[k]) && Faces(l, size, a, k, e, p))
        ensures d[k].health[e] == a[k].health[e]
      {
        assert Faces(l, size, b, k, e, p) == Faces(l, size, a, k, e, p);
      }
    }
  }

  /** Changing the rows facing `p` across all directions touches only
      rows that face `p`. */
  lemma ChangedOnlyFacing(l: Layout, c: Catalog, size: Vec3, a: map<Vec3, Cell>, b: map<Vec3, Cell>, p: Vec3, ch: Change)
    requires Whole(size, a) && p in a
    requires AllChanged(l, c, size, a, b, p, ch, 0, DirCount(l))
    ensures OnlyFacing(l, size, a, b, p)
  {
    forall k | k in a ensures k in b && |b[k].health| == |a[k].health|
      && forall e :: 0 <= e < |a[k].health| && !(Live(a[k]) && Faces(l, size, a, k, e, p)) ==> b[k].health[e] == a[k].health[e]
    {
      assert CellChanged(l, c, size, a, p, ch, 0, DirCount(l), k, a[k], b[k]);
      forall e | 0 <= e < |a[k].health| && !(Live(a[k]) && Faces(l, size, a, k, e, p))
        ensures b[k].health[e] == a[k].health[e]
      {
        if Live(a[k]) && e < DirCount(l) {
          Mutual(l, size, a, k, p, e);
        }
      }
    }
  }

  /** Changing the rows facing `p` and then giving `p` new candidates
      touches only the candidates at `p` and rows that face `p`. */
  lemma ChangedThenSetOnlyFacing(l: Layout, c: Catalog, size: Vec3, a: map<Vec3, Cell>, m: map<Vec3, Cell>,
                                 p: Vec3, ch: Change, mods: set<nat>)
    requires Whole(size, a) && p in a && Live(a[p])
    requires AllChanged(l, c, size, a, m, p, ch, 0, DirCount(l))
    ensures p in m
    ensures OnlyFacing(l, size, a, m[p := m[p].(modules := Some(mods))], p)
  {
    ChangedOnlyFacing(l, c, size, a, m, p, ch);
    var b := m[p := m[p].(modules := Some(mods))];
    assert OnlyFacing(l, size, m, b, p);
    OnlyFacingTrans(l, size, a, m, b, p);
  }

  /** `RemoveModules(s, false)` touches only the candidates of its cell and
      the rows facing it. */
  lemma RemoveOnlyFacing(l: Layout, c: Catalog, size: Vec3, st: State, p: Vec3, s: set<nat>)
    requires Whole(size, st.cells) && p in st.cells
    ensures OnlyFacing(l, size, st.cells, RemoveOnce(l, c, Tiled(size), st, p, s).0.cells, p)
  {
    if Live(st.cells[p]) {
      var before := st.cells[p].modules.value;
      var t := s * before;
      var st1 := st.(history := RecordRemoval(st.history, p, t));
      var m := DropDirs(l, c, Tiled(size), st1, p, t, 0).cells;
      DropDirsClosed(l, c, size, st1, p, t, 0);
      CutDown(before, s);
      ChangedThenSetOnlyFacing(l, c, size, st.cells, m, p, Drop(t), before - t);
      assert RemoveOnce(l, c, Tiled(size), st, p, s).0.cells == m[p := m[p].(modules := Some(before - t))];
    } else {
      assert OnlyFacing(l, size, st.cells, st.cells, p);
    }
  }

  /** The module loop of `AddModules` touches only the candidates of its
      cell and the rows facing it. */
  lemma {:induction false} AddEachOnlyFacing(l: Layout, c: Catalog, size: Vec3, cells: map<Vec3, Cell>, p: Vec3, s: set<nat>, m: nat)
    requires Whole(size, cells) && p in cells
    ensures OnlyFacing(l, size, cells, AddEach(l, c, Tiled(size), cells, p, s, m), p)
    decreases c.n - m
  {
    if m >= c.n || !Live(cells[p]) {
      assert OnlyFacing(l, size, cells, cells, p);
    } else {
      var next := AddTurn(l, c, Tiled(size), cells, p, s, m);
      if m in s && m !in cells[p].modules.value && cells[p].chosen != Some(m) {
        AddOneOnlyFacing(l, c, size, cells, p, m);
      } else {
        assert OnlyFacing(l, size, cells, next, p);
      }
      AddEachOnlyFacing(l, c, size, next, p, s, m + 1);
      OnlyFacingTrans(l, size, cells, next, AddEach(l, c, Tiled(size), next, p, s, m + 1), p);
    }
  }

  /** Adding one module touches only the candidates of its cell and the
      rows facing it. */
  lemma AddOneOnlyFacing(l: Layout, c: Catalog, size: Vec3, cells: map<Vec3, Cell>, p: Vec3, m: nat)
    requires Whole(size, cells) && p in cells && Live(cells[p])
    ensures var c2 := Added(l, c, Tiled(size), cells, p, m);
      Whole(size, c2) && OnlyFacing(l, size, cells, c2, p)
  {
    var c1 := RaiseDirs(l, c, Tiled(size), cells, p, m, 0);
    RaiseDirsClosed(l, c, size, cells, p, m, 0);
    ChangedThenSetOnlyFacing(l, c, size, cells, c1, p, Raise(m), c1[p].modules.value + {m});
  }

  /** `RemoveModules(s, false)` followed by `AddModules` of what it removed
      gives back exactly the cells the map had: the candidates of the cell
      and, by the law, every counter facing it. */
  lemma RemoveThenAddRestores(l: Layout, c: Catalog, size: Vec3, st: State, p: Vec3, s: set<nat>)
    requires WellFormed(l, c) && Lawful(l, c, size, st.cells)
    requires p in st.cells && Live(st.cells[p]) && st.cells[p].chosen.None?
    requires st.cells[p].modules.value <= Below(c.n)
    ensures var r1 := RemoveOnce(l, c, Tiled(size), st, p, s);
      var r2 := AddBack(l, c, Tiled(size), r1.0, p, r1.1);
      r2.1 == Ok && r2.0.cells == st.cells
  {
    var a := st.cells;
    var r1 := RemoveOnce(l, c, Tiled(size), st, p, s);
    var b := AddBack(l, c, Tiled(size), r1.0, p, r1.1).0.cells;
    CandidatesRestored(l, c, size, st, p, s);
    RemoveOnlyFacing(l, c, size, st, p, s);
    RemoveKeepsLaw(l, c, size, st, p, s);
    AddBackKeepsLaw(l, c, size, r1.0, p, r1.1);
    AddEachOnlyFacing(l, c, size, r1.0.cells, p, r1.1, 0);
    OnlyFacingTrans(l, size, a, r1.0.cells, b, p);
    forall k | k in a ensures k in b && b[k] == a[k] {
      RowsRestored(l, c, size, a, b, p, k);
    }
  }

  /** The candidates come back, and the cell is not reopened. */
  lemma CandidatesRestored(l: Layout, c: Catalog, size: Vec3, st: State, p: Vec3, s: set<nat>)
    requires p in st.cells && Live(st.cells[p]) && st.cells[p].chosen.None?
    requires st.cells[p].modules.value <= Below(c.n)
    ensures var r1 := RemoveOnce(l, c, Tiled(size), st, p, s);
      var r2 := AddBack(l, c, Tiled(size), r1.0, p, r1.1);
      && r2.1 == Ok && p in r1.0.cells && Live(r1.0.cells[p])
      && r2.0.cells == AddEach(l, c, Tiled(size), r1.0.cells, p, r1.1, 0)
      && r2.0.cells[p].modules == st.cells[p].modules
  {
    var before := st.cells[p].modules.value;
    var r1 := RemoveOnce(l, c, Tiled(size), st, p, s);
    RemoveOnceFrame(l, c, Tiled(size), st, p, s);
    var cell := r1.0.cells[p];
    assert cell.modules == Some(before - s) && cell.chosen.None? && r1.1 == s * before;
    FreshIsRemoved(before, s, cell, c.n);
    var r2 := AddBack(l, c, Tiled(size), r1.0, p, r1.1);
    assert r2.1 == Ok;
    assert r2.0.cells[p].modules == Some(before);
    assert r2.0.cells[p].chosen.None?;
  }

  /** What was removed is exactly what comes back. */
  lemma FreshIsRemoved(before: set<nat>, s: set<nat>, cell: Cell, n: nat)
    requires before <= Below(n) && cell.modules == Some(before - s) && cell.chosen.None?
    ensures Fresh(s * before, cell, 0, n) == s * before
    ensures (before - s) + s * before == before
  {
  }

  /** Two lawful periodic maps that differ at most in the rows facing a
      live cell `p`, and agree on its candidates, agree on those rows too. */
  lemma RowsRestored(l: Layout, c: Catalog, size: Vec3, a: map<Vec3, Cell>, b: map<Vec3, Cell>, p: Vec3, k: Vec3)
    requires Lawful(l, c, size, a) && Lawful(l, c, size, b) && OnlyFacing(l, size, a, b, p)
    requires p in a && Live(a[p]) && k in a && b[p].modules == a[p].modules
    ensures k in b && b[k].health == a[k].health
  {
    forall e | 0 <= e < |a[k].health| ensures b[k].health[e] == a[k].health[e] {
      if Live(a[k]) && Faces(l, size, a, k, e, p) {
        assert LawAt(l, c, size, a, k, e) && LawAt(l, c, size, b, k, e);
        assert TiledCell(size, b, Step(l, k, e)) == Some(p);
        forall x | 0 <= x < c.n ensures b[k].health[e][x] == a[k].health[e][x] {
        }
      }
    }
  }

  // ---------------------------------------------------------------------
  // The law holds from the start and through every operation.

  /** A fresh periodic map, every cell holding every module and the
      initial counters, keeps the law. */
  lemma FreshMapLawful(l: Layout, c: Catalog, size: Vec3, cells: map<Vec3, Cell>)
    requires WellFormed(l, c) && Whole(size, cells)
    requires forall k :: k in cells ==> cells[k] == Cell(k, Some(Below(c.n)), InitialHealth(l, c), None)
    ensures Lawful(l, c, size, cells)
  {
    forall k, e | k in cells && 0 <= e < DirCount(l) ensures LawAt(l, c, size, cells, k, e) {
      var q := TiledCell(size, cells, Step(l, k, e));
      if q.Some? {
        forall x | 0 <= x < c.n
          ensures cells[k].health[e][x] == Support(c, cells[q.value].modules.value, Opp(l, e), x)
        {
          assert cells[k].health[e] == InitialRow(l, c, e);
        }
      }
    }
  }

  /** Opening a cell for `Collapse(m)` keeps the law: forgetting the cell
      of an evicted record and choosing the module both do. */
  lemma OpenedKeepsLaw(l: Layout, c: Catalog, size: Vec3, st: State, p: Vec3, m: nat)
    requires st.history.size > 0 && RingBuffers.Inv(st.history) && p in st.cells
    requires Lawful(l, c, size, st.cells)
    ensures Lawful(l, c, size, Opened(st, p, m).cells)
  {
    var ev := RingBuffers.Evicted(st.history);
    var cells := if ev.Some? && ev.value.cell in st.cells then st.cells[ev.value.cell := Forgotten(st.cells[ev.value.cell])]
                 else st.cells;
    if ev.Some? && ev.value.cell in st.cells {
      LawIgnoresForgotten(l, c, size, st.cells, ev.value.cell);
    }
    LawIgnoresChoice(l, c, size, cells, p, Some(m));
  }

  /** The key loop of `Undo` keeps the law. */
  lemma {:induction false} UndoKeysKeepLaw(l: Layout, c: Catalog, size: Vec3, st: State, rec: Record, i: nat)
    requires WellFormed(l, c) && Lawful(l, c, size, st.cells)
    ensures Lawful(l, c, size, UndoKeys(l, c, Tiled(size), st, rec, i).0.cells)
    decreases |rec.keys| - i
  {
    if i < |rec.keys| {
      var key := rec.keys[i];
      var q := TiledCell(size, st.cells, key);
      assert Resolve(Tiled(size), st.cells, key) == (st.cells, q);
      if q.Some? {
        var s := if key in rec.removed then rec.removed[key] else {};
        var r1 := AddBack(l, c, Tiled(size), st, q.value, s);
        AddBackKeepsLaw(l, c, size, st, q.value, s);
        if r1.1 == Ok {
          UndoKeysKeepLaw(l, c, size, r1.0, rec, i + 1);
        }
      }
    }
  }

  /** `Undo(steps)` keeps the law. */
  lemma {:induction false} UndoKeepsLaw(l: Layout, c: Catalog, size: Vec3, st: State, steps: int)
    requires st.history.size > 0
    requires WellFormed(l, c) && Lawful(l, c, size, st.cells)
    ensures Lawful(l, c, size, UndoSteps(l, c, Tiled(size), st, steps).0.cells)
    decreases if steps > 0 then steps else 0
  {
    if steps > 0 && |st.history.items| > 0 {
      var rec := st.history.items[|st.history.items| - 1];
      var st0 := st.(history := RingBuffers.Popped(st.history));
      var r1 := UndoKeys(l, c, Tiled(size), st0, rec, 0);
      UndoKeysKeepLaw(l, c, size, st0, rec, 0);
      if r1.1 == Ok && rec.cell in r1.0.cells {
        LawIgnoresChoice(l, c, size, r1.0.cells, rec.cell, None);
      }
      var r2 := UndoOne(l, c, Tiled(size), st);
      if r2.1 == Ok {
        UndoKeepsLaw(l, c, size, r2.0, steps - 1);
      }
    }
  }
}

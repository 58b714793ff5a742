/** The module catalog as the solver sees it, and the two direction layouts
    it runs under: six directions in the newer solver (MapBase, Cell) and
    four in the older one (AbstractMap, Slot). The health matrix every cell
    starts from is built here (`CreateEntropy`,
    `CreateInitialModuleHealth`). */
module Catalogs {
  import opened Basics
  import Directions
  import Orientations

  /** Which of the two solvers: `SixWay` counts the six directions of
      Directions.cs, `FourWay` the four of Orienations.cs. */
  datatype Layout = SixWay | FourWay

  function DirCount(l: Layout): nat {
    if l.SixWay? then Directions.Count else Orientations.Count
  }

  /** `(i + 3) % 6` and `(i + 2) % 4`. */
  function Opp(l: Layout, d: nat): nat {
    if l.SixWay? then Directions.Opposite(d) else Orientations.Opposite(d)
  }

  /** The unit vector of direction `d` (`Direction[d]`): the six-way table
      of Directions.cs, or the four-way table of Orienations.cs. */
  function Dir(l: Layout, d: nat): Vec3
    requires d < DirCount(l)
  {
    if l.SixWay? then Directions.Vector(d) else Orientations.Vector(d)
  }

  /** The position one step from `p` in direction `d` (`GetNeighbour`). */
  function Step(l: Layout, p: Vec3, d: nat): Vec3
    requires d < DirCount(l)
  {
    Add(p, Dir(l, d))
  }

  /** `HISTORY_SIZE`. */
  function HistorySize(l: Layout): nat {
    if l.SixWay? then 10000 else 3000
  }

  /** Opposite is an involution on the directions, points the other way,
      and a step there and a step back lands where it started. */
  lemma OppBack(l: Layout, d: nat, p: Vec3)
    requires d < DirCount(l)
    ensures Opp(l, d) < DirCount(l) && Opp(l, Opp(l, d)) == d
    ensures Dir(l, Opp(l, d)) == Neg(Dir(l, d))
    ensures Step(l, Step(l, p, d), Opp(l, d)) == p
  {
    OppNegates(l, d);
    var v := Dir(l, d);
    assert Add(Add(p, v), Neg(v)) == p;
  }

  lemma OppNegates(l: Layout, d: nat)
    requires d < DirCount(l)
    ensures Opp(l, d) < DirCount(l) && Opp(l, Opp(l, d)) == d
    ensures Dir(l, Opp(l, d)) == Neg(Dir(l, d))
  {
    if l.SixWay? {
      Directions.OppositeIsNegation(d);
      assert d == 0 || d == 1 || d == 2 || d == 3 || d == 4 || d == 5;
    } else {
      Orientations.OppositeIsNegation(d);
      assert d == 0 || d == 1 || d == 2 || d == 3;
    }
  }

  /** Opposites pair the directions up: `e` is across from `d` exactly
      when `d` is across from `e`. */
  lemma OppPairs(l: Layout, d: nat, e: nat)
    requires d < DirCount(l) && e < DirCount(l)
    ensures Opp(l, e) == d <==> e == Opp(l, d)
  {
    OppNegates(l, d);
    OppNegates(l, e);
  }

  // ---------------------------------------------------------------------
  // The catalog.

  /** `n` modules; `neighbours[m][d]` lists, in ascending order, the modules
      allowed next to module `m` in direction `d` (`possibleNeighboursArray`,
      the array form of the `possibleNeighbours` module sets). */
  datatype Catalog = Catalog(n: nat, neighbours: seq<seq<seq<nat>>>)

  /** A strictly ascending list of module indices below `n`, as a module
      set's enumerator yields them. */
  predicate Listing(s: seq<nat>, n: nat) {
    (forall j :: 0 <= j < |s| ==> s[j] < n)
    && (forall i, j :: 0 <= i < j < |s| ==> s[i] < s[j])
  }

  predicate WellFormed(l: Layout, c: Catalog) {
    |c.neighbours| == c.n
    && forall m :: 0 <= m < c.n ==>
         |c.neighbours[m]| == DirCount(l)
         && forall d :: 0 <= d < DirCount(l) ==> Listing(c.neighbours[m][d], c.n)
  }

  /** Module `m` allows `x` next to it in direction `d`. */
  predicate Allows(c: Catalog, m: nat, d: nat, x: nat) {
    m < |c.neighbours| && d < |c.neighbours[m]| && x in c.neighbours[m][d]
  }

  /** The modules of `s` that allow `x` next to them in direction `d`. */
  function Supporters(c: Catalog, s: set<nat>, d: nat, x: nat): set<nat> {
    set m | m in s && Allows(c, m, d, x)
  }

  /** How many modules of `s` allow `x` in direction `d`: the quantity a
      health counter keeps. */
  function Support(c: Catalog, s: set<nat>, d: nat, x: nat): nat {
    |Supporters(c, s, d, x)|
  }

  /** The module indices below `k`. */
  function Below(k: nat): (r: set<nat>)
    ensures forall m: nat :: m in r <==> m < k
  {
    if k == 0 then {} else Below(k - 1) + {k - 1}
  }

  /** Adding one module to a set adds one supporter exactly when it allows `x`. */
  lemma SupportInsert(c: Catalog, s: set<nat>, m: nat, d: nat, x: nat)
    requires m !in s
    ensures Support(c, s + {m}, d, x) == Support(c, s, d, x) + (if Allows(c, m, d, x) then 1 else 0)
  {
    if Allows(c, m, d, x) {
      assert Supporters(c, s + {m}, d, x) == Supporters(c, s, d, x) + {m};
    } else {
      assert Supporters(c, s + {m}, d, x) == Supporters(c, s, d, x);
    }
  }

  /** Taking a subset `t` out of `s` takes away exactly the support of `t`. */
  lemma SupportDiff(c: Catalog, s: set<nat>, t: set<nat>, d: nat, x: nat)
    requires t <= s
    ensures Support(c, s - t, d, x) == Support(c, s, d, x) - Support(c, t, d, x)
    ensures Support(c, t, d, x) <= Support(c, s, d, x)
  {
    var a, b := Supporters(c, s, d, x), Supporters(c, t, d, x);
    assert Supporters(c, s - t, d, x) == a - b;
    assert b <= a;
    assert (a - b) + b == a;
    assert (a - b) * b == {};
  }

  /** The health counters of a full cell: `initial[i][x]` is the number of
      modules that allow `x` in the direction opposite to `i`. */
  function InitialHealth(l: Layout, c: Catalog): seq<seq<int>> {
    seq(DirCount(l), i requires 0 <= i => InitialRow(l, c, i))
  }

  function InitialRow(l: Layout, c: Catalog, i: nat): seq<int> {
    seq(c.n, x requires 0 <= x => Support(c, Below(c.n), Opp(l, i), x))
  }

  /** Count one more supporter of every module in `list` (the innermost
      `foreach` of `CreateEntropy` and of `AddModules`). An index past the
      row, which a well-formed catalog never lists, is skipped. */
  method RaiseAll(row: seq<int>, list: seq<nat>) returns (r: seq<int>)
    requires forall i, j :: 0 <= i < j < |list| ==> list[i] < list[j]
    ensures |r| == |row|
    ensures forall x :: 0 <= x < |row| ==> r[x] == row[x] + (if x in list then 1 else 0)
  {
    r := row;
    var j := 0;
    while j < |list|
      invariant 0 <= j <= |list| && |r| == |row|
      invariant forall x :: 0 <= x < |row| ==> r[x] == row[x] + (if x in list[..j] then 1 else 0)
    {
      var x := list[j];
      assert x !in list[..j];
      assert list[..j + 1] == list[..j] + [x];
      if x < |r| {
        r := r[x := r[x] + 1];
      }
      j := j + 1;
    }
    assert list[..j] == list;
  }

  /** One row of `CreateEntropy`: for every module `x`, how many modules of
      the catalog allow `x` in direction `o`. */
  method CountSupport(l: Layout, c: Catalog, o: nat) returns (row: seq<int>)
    requires WellFormed(l, c) && o < DirCount(l)
    ensures |row| == c.n
    ensures forall x :: 0 <= x < c.n ==> row[x] == Support(c, Below(c.n), o, x)
  {
    row := seq(c.n, x => 0);
    var m := 0;
    while m < c.n
      invariant 0 <= m <= c.n && |row| == c.n
      invariant forall x :: 0 <= x < c.n ==> row[x] == Support(c, Below(m), o, x)
    {
      row := RaiseAll(row, c.neighbours[m][o]);
      forall x | 0 <= x < c.n
        ensures row[x] == Support(c, Below(m + 1), o, x)
      {
        assert Below(m + 1) == Below(m) + {m};
        SupportInsert(c, Below(m), m, o, x);
      }
      m := m + 1;
    }
  }

  /** `CreateEntropy` / `CreateInitialModuleHealth`: one counter per
      direction and module, counting over every module of the catalog. */
  method CreateEntropy(l: Layout, c: Catalog) returns (health: seq<seq<int>>)
    requires WellFormed(l, c)
    ensures health == InitialHealth(l, c)
    ensures forall i, x :: 0 <= i < DirCount(l) && 0 <= x < c.n ==> health[i][x] == Support(c, Below(c.n), Opp(l, i), x)
  {
    health := [];
    var i := 0;
    while i < DirCount(l)
      invariant 0 <= i <= DirCount(l) && |health| == i
      invariant forall k :: 0 <= k < i ==> RowOk(l, c, k, health[k])
    {
      OppBack(l, i, Vec3(0, 0, 0));
      var row := CountSupport(l, c, Opp(l, i));
      assert RowOk(l, c, i, row);
      var before := health;
      health := health + [row];
      forall k | 0 <= k < i + 1 ensures RowOk(l, c, k, health[k]) {
        if k < i {
          assert health[k] == before[k];
        }
      }
      i := i + 1;
    }
    InitialHealthPointwise(l, c, health);
  }

  predicate RowOk(l: Layout, c: Catalog, k: nat, row: seq<int>) {
    |row| == c.n && forall x :: 0 <= x < c.n ==> row[x] == Support(c, Below(c.n), Opp(l, k), x)
  }

  /** A matrix with the initial counters in every entry is the initial matrix. */
  lemma InitialHealthPointwise(l: Layout, c: Catalog, health: seq<seq<int>>)
    requires |health| == DirCount(l) && forall k :: 0 <= k < |health| ==> |health[k]| == c.n
    requires forall k, x :: 0 <= k < |health| && 0 <= x < c.n ==> health[k][x] == Support(c, Below(c.n), Opp(l, k), x)
    ensures health == InitialHealth(l, c)
  {
    forall k | 0 <= k < |health| ensures health[k] == InitialRow(l, c, k) {
    }
  }

  /** The editor build's check after `CreateEntropy`: every module can be
      reached from every direction, that is no initial counter is zero;
      `false` stands for the "Unreachable" exception. */
  method CheckReachable(l: Layout, c: Catalog, health: seq<seq<int>>) returns (ok: bool)
    requires |health| == DirCount(l) && forall i :: 0 <= i < |health| ==> |health[i]| == c.n
    ensures ok <==> forall d, x :: 0 <= d < DirCount(l) && 0 <= x < c.n ==> health[d][x] != 0
  {
    var x := 0;
    while x < c.n
      invariant 0 <= x <= c.n
      invariant forall d, y :: 0 <= d < DirCount(l) && 0 <= y < x ==> health[d][y] != 0
    {
      var d := 0;
      while d < DirCount(l)
        invariant 0 <= d <= DirCount(l)
        invariant forall e :: 0 <= e < d ==> health[e][x] != 0
      {
        if health[d][x] == 0 {
          return false;
        }
        d := d + 1;
      }
      x := x + 1;
    }
    return true;
  }

  /** A module that nothing allows next to it from some side is caught by
      the check, and every catalog in which each module allows every other
      on every side passes it. */
  lemma UnreachableFromNowhere(l: Layout, c: Catalog, d: nat, x: nat)
    requires WellFormed(l, c) && d < DirCount(l) && x < c.n
    ensures Opp(l, d) < DirCount(l)
    ensures InitialHealth(l, c)[d][x] == 0 <==> forall m :: 0 <= m < c.n ==> !Allows(c, m, Opp(l, d), x)
  {
    OppBack(l, d, Vec3(0, 0, 0));
    var o := Opp(l, d);
    var s := Supporters(c, Below(c.n), o, x);
    assert forall m :: 0 <= m < c.n && Allows(c, m, o, x) ==> m in s;
    if s != {} {
      var m :| m in s;
      assert 0 <= m < c.n && Allows(c, m, o, x);
    }
  }
}

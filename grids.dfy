/** Grid geometry shared by the map kinds: the wrapping lookup of the finite
    periodic maps (TileMap.cs, TilingMap.cs), the x-then-y-then-z box order
    of their enumerations and of `Collapse(start, size)`, the range limit of
    the lazy maps (both InfiniteMap.cs files), and the boundary constraints
    the maps apply. */
module Grids {
  import opened Basics

  // ---------------------------------------------------------------------
  // Wrapping.

  /** The periodic maps' wrap of one coordinate, `p % n + (p % n < 0 ? n : 0)`
      with C#'s truncating `%`; computed here by stepping whole periods, and
      `WrapIsRemainder` shows it is that formula. */
  function Wrap(a: int, n: int): (r: int)
    requires n > 0
    ensures 0 <= r < n
    decreases if a < 0 then n - a else a
  {
    if a < 0 then Wrap(a + n, n)
    else if a >= n then Wrap(a - n, n)
    else a
  }

  lemma MulAtLeast(x: int, n: int)
    requires x >= 1 && n > 0
    ensures x * n >= n
  {
  }

  lemma MulNegated(n: int, q: int, j: int)
    ensures n * (-q - j) == -(n * q) - n * j
  {
  }

  /** Euclidean division leaves a unique remainder. */
  lemma ModUnique(a: int, n: int, k: int, w: int)
    requires n > 0 && 0 <= w < n && a == n * k + w
    ensures a % n == w
  {
    var q, r := a / n, a % n;
    assert a == n * q + r;
    assert 0 <= r < n;
    assert n * (q - k) == w - r;
    if q - k > 0 {
      MulAtLeast(q - k, n);
      assert false;
    } else if q - k < 0 {
      MulAtLeast(k - q, n);
      assert false;
    }
  }

  /** Adding whole periods keeps the Euclidean remainder. */
  lemma ModShift(a: int, n: int, k: int)
    requires n > 0
    ensures (a + k * n) % n == a % n
  {
    var q := a / n;
    assert a == n * q + a % n;
    assert a + k * n == n * (q + k) + a % n;
    ModUnique(a + k * n, n, q + k, a % n);
  }

  /** The wrapped coordinate is the Euclidean remainder. */
  lemma {:induction false} WrapIsMod(a: int, n: int)
    requires n > 0
    ensures Wrap(a, n) == a % n
    decreases if a < 0 then n - a else a
  {
    if a < 0 {
      WrapIsMod(a + n, n);
      ModShift(a, n, 1);
    } else if a >= n {
      WrapIsMod(a - n, n);
      ModShift(a, n, -1);
    } else {
      ModUnique(a, n, 0, a);
    }
  }

  /** The wrapped coordinate is the source's formula over the truncating
      remainder, and also the Euclidean remainder. */
  lemma WrapIsRemainder(a: int, n: int)
    requires n > 0
    ensures Wrap(a, n) == a % n
    ensures Wrap(a, n) == Rem(a, n) + (if Rem(a, n) < 0 then n else 0)
  {
    WrapIsMod(a, n);
    if a < 0 {
      var b := -a;
      var q, r := b / n, b % n;
      assert b == n * q + r;
      assert Rem(a, n) == -r;
      if r == 0 {
        MulNegated(n, q, 0);
        ModUnique(a, n, -q, 0);
      } else {
        MulNegated(n, q, 1);
        ModUnique(a, n, -q - 1, n - r);
      }
    }
  }

  /** Shifting by whole periods does not change the wrapped coordinate. */
  lemma WrapPeriodic(a: int, k: int, n: int)
    requires n > 0
    ensures Wrap(a + k * n, n) == Wrap(a, n)
  {
    WrapIsMod(a, n);
    WrapIsMod(a + k * n, n);
    ModShift(a, n, k);
  }

  // ---------------------------------------------------------------------
  // Boxes.

  predicate InBox(size: Vec3, p: Vec3) {
    0 <= p.x < size.x && 0 <= p.y < size.y && 0 <= p.z < size.z
  }

  /** The stored position a periodic map hands out for `p`, or `None` when
      `p` lies above or below it (`GetCell` / `GetSlot`). */
  function Locate(size: Vec3, p: Vec3): (r: Option<Vec3>)
    requires size.x > 0 && size.z > 0
  {
    if p.y < 0 || p.y >= size.y then None
    else Some(Vec3(Wrap(p.x, size.x), p.y, Wrap(p.z, size.z)))
  }

  /** `GetCell(p)` is null exactly when `p.y` is out of range, and otherwise
      a stored position; stored positions are their own lookup. */
  lemma LocateInBox(size: Vec3, p: Vec3)
    requires size.x > 0 && size.z > 0
    ensures Locate(size, p).None? <==> !(0 <= p.y < size.y)
    ensures Locate(size, p).Some? ==> InBox(size, Locate(size, p).value)
    ensures InBox(size, p) ==> Locate(size, p) == Some(p)
  {
  }

  /** The lookup is periodic in x and z. */
  lemma LocatePeriodic(size: Vec3, p: Vec3, k: int, j: int)
    requires size.x > 0 && size.z > 0
    ensures Locate(size, Vec3(p.x + k * size.x, p.y, p.z + j * size.z)) == Locate(size, p)
  {
    WrapPeriodic(p.x, k, size.x);
    WrapPeriodic(p.z, j, size.z);
  }

  /** Wrapping after a step and then stepping back and wrapping again
      returns a coordinate that was in range. */
  lemma WrapBack(a: int, v: int, n: int)
    requires 0 <= a < n
    ensures Wrap(Wrap(a + v, n) - v, n) == a
  {
    var w, k := Wrap(a + v, n), (a + v) / n;
    assert w - v == a + (-k) * n by {
      WrapIsRemainder(a + v, n);
      assert a + v == n * k + w;
    }
    WrapPeriodic(a, -k, n);
  }

  /** A step from a stored position and the opposite step from where it
      lands lead back to the same stored position. */
  lemma LocateBack(size: Vec3, p: Vec3, v: Vec3)
    requires size.x > 0 && size.z > 0 && InBox(size, p)
    requires Locate(size, Add(p, v)).Some?
    ensures Locate(size, Add(Locate(size, Add(p, v)).value, Neg(v))) == Some(p)
  {
    WrapBack(p.x, v.x, size.x);
    WrapBack(p.z, v.z, size.z);
  }

  /** `k`, or 0 when `k` is negative: how often a loop `for (i = 0; i < k; i++)` runs. */
  function Nat(k: int): nat {
    if k < 0 then 0 else k
  }

  /** Positions `(x, y, z)` for `z` below `sz`. */
  function Row(x: int, y: int, sz: int): seq<Vec3> {
    if sz <= 0 then [] else seq(sz, z => Vec3(x, y, z))
  }

  /** Positions with first coordinate `x`, `y` outer and `z` inner. */
  function Slab(x: int, sy: int, sz: int): seq<Vec3>
    decreases sy
  {
    if sy <= 0 then [] else Slab(x, sy - 1, sz) + Row(x, sy - 1, sz)
  }

  /** The box `[0, sx) × [0, sy) × [0, sz)`, x outermost and z innermost:
      the order of the constructors, `GetAllCells` and `Collapse(start, size)`. */
  function Box(sx: int, sy: int, sz: int): seq<Vec3>
    decreases sx
  {
    if sx <= 0 then [] else Box(sx - 1, sy, sz) + Slab(sx - 1, sy, sz)
  }

  /** Layer `y` of a box: positions `(x, y, z)` for `x` below `sx` and `z`
      below `sz`, x outer and z inner, the double loop of
      `TileMap.ApplyConstraints`. */
  function Layer(sx: int, y: int, sz: int): seq<Vec3>
    decreases sx
  {
    if sx <= 0 then [] else Layer(sx - 1, y, sz) + Row(sx - 1, y, sz)
  }

  /** A layer holds exactly the positions of its height inside the box. */
  lemma {:induction false} LayerExactly(sx: int, y: int, sz: int, p: Vec3)
    ensures p in Layer(sx, y, sz) <==> p.y == y && 0 <= p.x < sx && 0 <= p.z < sz
    decreases sx
  {
    if sx > 0 {
      LayerExactly(sx - 1, y, sz, p);
      if p.x == sx - 1 && p.y == y && 0 <= p.z < sz {
        assert Row(sx - 1, y, sz)[p.z] == p;
      }
    }
  }

  /** Lexicographic order on positions, x first. */
  predicate Before(a: Vec3, b: Vec3) {
    a.x < b.x || (a.x == b.x && (a.y < b.y || (a.y == b.y && a.z < b.z)))
  }

  predicate Ascending(s: seq<Vec3>) {
    forall i, j :: 0 <= i < j < |s| ==> Before(s[i], s[j])
  }

  lemma AscendingConcat(a: seq<Vec3>, b: seq<Vec3>)
    requires Ascending(a) && Ascending(b)
    requires forall i, j :: 0 <= i < |a| && 0 <= j < |b| ==> Before(a[i], b[j])
    ensures Ascending(a + b)
  {
  }

  /** Every element of a slab lies in it. */
  lemma {:induction false} SlabBounds(x: int, sy: int, sz: int)
    ensures forall i :: 0 <= i < |Slab(x, sy, sz)| ==>
      Slab(x, sy, sz)[i].x == x && 0 <= Slab(x, sy, sz)[i].y < sy && 0 <= Slab(x, sy, sz)[i].z < sz
    decreases sy
  {
    if sy > 0 {
      SlabBounds(x, sy - 1, sz);
    }
  }

  lemma {:induction false} SlabAscending(x: int, sy: int, sz: int)
    ensures Ascending(Slab(x, sy, sz))
    decreases sy
  {
    if sy > 0 {
      SlabAscending(x, sy - 1, sz);
      SlabBounds(x, sy - 1, sz);
      var a, b := Slab(x, sy - 1, sz), Row(x, sy - 1, sz);
      forall i, j | 0 <= i < |a| && 0 <= j < |b| ensures Before(a[i], b[j]) {
        assert b[j] == Vec3(x, sy - 1, j);
      }
      AscendingConcat(a, b);
    }
  }

  /** Every position of the slab occurs in it. */
  lemma {:induction false} SlabComplete(x: int, sy: int, sz: int, p: Vec3)
    requires p.x == x && 0 <= p.y < sy && 0 <= p.z < sz
    ensures p in Slab(x, sy, sz)
    decreases sy
  {
    if p.y < sy - 1 {
      SlabComplete(x, sy - 1, sz, p);
    } else {
      assert Row(x, sy - 1, sz)[p.z] == p;
    }
  }

  lemma MulStep(a: int, m: int)
    ensures a * m == (a - 1) * m + m
  {
  }

  lemma {:induction false} SlabLength(x: int, sy: int, sz: int)
    ensures |Slab(x, sy, sz)| == Nat(sy) * Nat(sz)
    decreases sy
  {
    if sy > 0 {
      SlabLength(x, sy - 1, sz);
      MulStep(sy, Nat(sz));
    }
  }

  lemma {:induction false} BoxBounds(sx: int, sy: int, sz: int)
    ensures forall i :: 0 <= i < |Box(sx, sy, sz)| ==> InBox(Vec3(sx, sy, sz), Box(sx, sy, sz)[i])
    decreases sx
  {
    if sx > 0 {
      BoxBounds(sx - 1, sy, sz);
      SlabBounds(sx - 1, sy, sz);
    }
  }

  lemma {:induction false} BoxAscending(sx: int, sy: int, sz: int)
    ensures Ascending(Box(sx, sy, sz))
    decreases sx
  {
    if sx > 0 {
      BoxAscending(sx - 1, sy, sz);
      SlabAscending(sx - 1, sy, sz);
      BoxBounds(sx - 1, sy, sz);
      SlabBounds(sx - 1, sy, sz);
      AscendingConcat(Box(sx - 1, sy, sz), Slab(sx - 1, sy, sz));
    }
  }

  lemma {:induction false} BoxComplete(sx: int, sy: int, sz: int, p: Vec3)
    requires InBox(Vec3(sx, sy, sz), p)
    ensures p in Box(sx, sy, sz)
    decreases sx
  {
    if p.x < sx - 1 {
      BoxComplete(sx - 1, sy, sz, p);
    } else {
      SlabComplete(sx - 1, sy, sz, p);
    }
  }

  lemma {:induction false} BoxLength(sx: int, sy: int, sz: int)
    ensures |Box(sx, sy, sz)| == Nat(sx) * (Nat(sy) * Nat(sz))
    decreases sx
  {
    if sx > 0 {
      BoxLength(sx - 1, sy, sz);
      SlabLength(sx - 1, sy, sz);
      MulStep(sx, Nat(sy) * Nat(sz));
    }
  }

  /** The box enumeration lists every position of the box, and nothing else,
      in strictly ascending order, hence each exactly once; there are
      `size.x * size.y * size.z` of them. */
  lemma BoxShape(sx: int, sy: int, sz: int)
    ensures Ascending(Box(sx, sy, sz))
    ensures forall p :: p in Box(sx, sy, sz) <==> InBox(Vec3(sx, sy, sz), p)
    ensures |Box(sx, sy, sz)| == Nat(sx) * (Nat(sy) * Nat(sz))
  {
    BoxAscending(sx, sy, sz);
    BoxBounds(sx, sy, sz);
    BoxLength(sx, sy, sz);
    forall p | InBox(Vec3(sx, sy, sz), p) ensures p in Box(sx, sy, sz) {
      BoxComplete(sx, sy, sz, p);
    }
  }

  /** An ascending list holds no position twice. */
  lemma AscendingDistinct(s: seq<Vec3>, i: int, j: int)
    requires Ascending(s) && 0 <= i < |s| && 0 <= j < |s| && i != j
    ensures s[i] != s[j]
  {
  }

  /** `start + p` for every `p` of `s`. */
  function Translate(start: Vec3, s: seq<Vec3>): (r: seq<Vec3>)
    ensures |r| == |s|
  {
    seq(|s|, k requires 0 <= k < |s| => Add(start, s[k]))
  }

  lemma TranslateConcat(start: Vec3, a: seq<Vec3>, b: seq<Vec3>)
    ensures Translate(start, a + b) == Translate(start, a) + Translate(start, b)
  {
  }

  /** The innermost loop of the triple loop below: `z` from 0 up to `sz`. */
  method AppendRow(start: Vec3, targets: seq<Vec3>, x: int, y: int, sz: int) returns (t: seq<Vec3>)
    ensures t == targets + Translate(start, Row(x, y, sz))
  {
    t := targets;
    var z := 0;
    while z < sz
      invariant 0 <= z <= Nat(sz)
      invariant t == targets + Translate(start, Row(x, y, z))
    {
      assert Row(x, y, z + 1) == Row(x, y, z) + [Vec3(x, y, z)];
      TranslateConcat(start, Row(x, y, z), [Vec3(x, y, z)]);
      t := t + [Add(start, Vec3(x, y, z))];
      z := z + 1;
    }
    assert Row(x, y, z) == Row(x, y, sz);
  }

  /** The middle loop: `y` from 0 up to `sy`. */
  method AppendSlab(start: Vec3, targets: seq<Vec3>, x: int, sy: int, sz: int) returns (t: seq<Vec3>)
    ensures t == targets + Translate(start, Slab(x, sy, sz))
  {
    t := targets;
    var y := 0;
    while y < sy
      invariant 0 <= y <= Nat(sy)
      invariant t == targets + Translate(start, Slab(x, y, sz))
    {
      TranslateConcat(start, Slab(x, y, sz), Row(x, y, sz));
      t := AppendRow(start, t, x, y, sz);
      y := y + 1;
    }
    assert Slab(x, y, sz) == Slab(x, sy, sz);
  }

  /** The triple loop of the constructors, `GetAllCells` and
      `Collapse(start, size)`: `start + (x, y, z)` for every position of the
      box of the given size, x outermost. */
  method Enumerate(start: Vec3, size: Vec3) returns (targets: seq<Vec3>)
    ensures targets == Translate(start, Box(size.x, size.y, size.z))
  {
    targets := [];
    var x := 0;
    while x < size.x
      invariant 0 <= x <= Nat(size.x)
      invariant targets == Translate(start, Box(x, size.y, size.z))
    {
      TranslateConcat(start, Box(x, size.y, size.z), Slab(x, size.y, size.z));
      targets := AppendSlab(start, targets, x, size.y, size.z);
      x := x + 1;
    }
    assert Box(x, size.y, size.z) == Box(size.x, size.y, size.z);
  }

  // ---------------------------------------------------------------------
  // The range limit of the lazy maps.

  /** `(p - centre).magnitude > limit`, on integers: a negative limit puts
      every position out of range, otherwise the squared distance must
      exceed the squared limit. */
  predicate IsOutOfRange(p: Vec3, centre: Vec3, limit: int) {
    limit < 0 || SqrMagnitude(Sub(p, centre)) > limit * limit
  }

  /** The centre is in range exactly when the limit is not negative; a
      larger limit keeps every position that a smaller one keeps; and the
      test depends only on the offset from the centre. */
  lemma RangeShape(p: Vec3, centre: Vec3, limit: int, larger: int, t: Vec3)
    requires limit <= larger
    ensures IsOutOfRange(centre, centre, limit) <==> limit < 0
    ensures IsOutOfRange(p, centre, larger) ==> IsOutOfRange(p, centre, limit)
    ensures IsOutOfRange(Add(p, t), Add(centre, t), limit) == IsOutOfRange(p, centre, limit)
  {
    assert Sub(Add(p, t), Add(centre, t)) == Sub(p, centre);
    if 0 <= limit {
      assert limit * limit <= larger * larger;
    }
  }

  // ---------------------------------------------------------------------
  // Boundary constraints (Constraints.cs, BoundaryConstraint.cs).

  datatype ConstraintMode = EnforceConnector | ExcludeConnector
  datatype ConstraintDirection = Up | Down | Horizontal

  /** `yLocal` (`relativeY` in the older map), which side it applies to,
      whether the connector is enforced or excluded, and the connector. */
  datatype Constraint = Constraint(yLocal: int, direction: ConstraintDirection, mode: ConstraintMode, connector: int)

  /** The layer of the default column a lazy map applies a constraint to:
      a negative `yLocal` counts from the top. */
  function ConstraintLayer(yLocal: int, height: int): (y: int)
    ensures yLocal >= 0 ==> y == yLocal
    ensures yLocal < 0 ==> y - height == yLocal
  {
    if yLocal < 0 then yLocal + height else yLocal
  }
}

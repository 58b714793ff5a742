/** The six face directions of the newer solver (Assets/Scripts/Directions.cs):
    LEFT 0, DOWN 1, BACK 2, RIGHT 3, UP 4, FORWARD 5. The opposite of `d` is
    `(d + 3) % 6`; rotation about the vertical axis walks the horizontal cycle
    0 -> 2 -> 3 -> 5 -> 0 and leaves DOWN and UP alone. */
module Directions {
  import opened Basics

  const Left := 0
  const Down := 1
  const Back := 2
  const Right := 3
  const Up := 4
  const Forward := 5

  const Count := 6

  /** The table `horizontal`. */
  const Horizontal: seq<int> := [0, 2, 3, 5]

  /** The rounded unit vectors of `Direction`, in direction order. */
  function Vector(d: nat): Vec3
    requires d < Count
  {
    [Vec3(-1, 0, 0), Vec3(0, -1, 0), Vec3(0, 0, -1),
     Vec3(1, 0, 0), Vec3(0, 1, 0), Vec3(0, 0, 1)][d]
  }

  function Opposite(d: nat): nat {
    (d + 3) % 6
  }

  predicate IsHorizontal(d: int) {
    d != 1 && d != 4
  }

  /** The position of a horizontal direction on the rotation cycle. */
  function CyclePosition(d: nat): nat {
    if d == 0 then 0 else if d == 2 then 1 else if d == 3 then 2 else 3
  }

  /** The table index `Array.IndexOf(horizontal, direction) + amount` after
      C#'s truncating `%`. */
  function RawRotateIndex(d: nat, amount: int): int {
    Rem(IndexOf(Horizontal, d) + amount, 4)
  }

  /** `Rotate`: DOWN and UP stay put; a horizontal direction moves `amount`
      places along the cycle. `RotateReadsTable` shows this is the entry of
      `horizontal` the source looks up. */
  function Rotate(d: nat, amount: nat): (r: nat)
    requires d < Count
    ensures r < Count
    ensures !IsHorizontal(d) ==> r == d
  {
    if d == 1 || d == 4 then d else Horizontal[(CyclePosition(d) + amount) % 4]
  }

  /** The successor of a horizontal direction on the rotation cycle. */
  function Next(d: nat): nat {
    if d == 0 then 2 else if d == 2 then 3 else if d == 3 then 5 else 0
  }

  /** `GetIndex`, with the float sign tests read on integer components. */
  function GetIndex(v: Vec3): (r: nat)
    ensures r < Count
  {
    if v.x < 0 then 0
    else if v.y < 0 then 1
    else if v.z < 0 then 2
    else if v.x > 0 then 3
    else if v.y > 0 then 4
    else 5
  }

  /** Every rotation result is horizontal exactly when its input is. */
  lemma RotateKeepsKind(d: nat, amount: nat)
    requires d < Count
    ensures IsHorizontal(Rotate(d, amount)) <==> IsHorizontal(d)
    ensures !IsHorizontal(d) ==> Rotate(d, amount) == d
  {
    if IsHorizontal(d) {
      var j := (CyclePosition(d) + amount) % 4;
      assert j == 0 || j == 1 || j == 2 || j == 3;
    }
  }

  /** For a non-negative amount the table index stays within 0..3 and
      `Rotate` returns the entry there; a negative amount can make the
      index negative, which is why the amount must be >= 0. */
  lemma RotateReadsTable(d: nat, amount: int)
    requires d < Count && IsHorizontal(d)
    ensures amount >= 0 ==> 0 <= RawRotateIndex(d, amount) < 4
    ensures amount >= 0 ==> Rotate(d, amount) == Horizontal[RawRotateIndex(d, amount)]
    ensures RawRotateIndex(Left, -1) == -1
  {
    assert IndexOf(Horizontal, d) == CyclePosition(d) by {
      assert d == 0 || d == 2 || d == 3 || d == 5;
    }
  }

  /** A position on the cycle identifies its direction. */
  lemma CyclePositionOf(j: nat)
    requires j < 4
    ensures CyclePosition(Horizontal[j]) == j
  {
  }

  /** One more quarter turn moves one place along the cycle. */
  lemma RotateStep(d: nat, amount: nat)
    requires d < Count && IsHorizontal(d)
    ensures Rotate(d, amount + 1) == Next(Rotate(d, amount))
  {
    var j := (CyclePosition(d) + amount) % 4;
    QuarterTurns(CyclePosition(d) + amount, 1);
    assert j == 0 || j == 1 || j == 2 || j == 3;
  }

  /** Four quarter turns are the identity. */
  lemma RotateFullTurn(d: nat)
    requires d < Count
    ensures Rotate(d, 4) == d
  {
    if IsHorizontal(d) {
      assert d == 0 || d == 2 || d == 3 || d == 5;
    }
  }

  /** Rotations compose additively. */
  lemma RotateCompose(d: nat, a: nat, b: nat)
    requires d < Count
    ensures Rotate(Rotate(d, a), b) == Rotate(d, a + b)
  {
    if IsHorizontal(d) {
      var c := CyclePosition(d);
      var j := (c + a) % 4;
      assert Rotate(d, a) == Horizontal[j];
      CyclePositionOf(j);
      assert Rotate(Horizontal[j], b) == Horizontal[(j + b) % 4];
      QuarterTurns(c + a, b);
      assert (j + b) % 4 == (c + (a + b)) % 4;
      assert Rotate(d, a + b) == Horizontal[(c + (a + b)) % 4];
    }
  }

  /** Only the amount modulo four matters. */
  lemma RotateResidue(d: nat, amount: nat)
    requires d < Count
    ensures Rotate(d, amount) == Rotate(d, amount % 4)
  {
    if IsHorizontal(d) {
      QuarterTurns(amount, CyclePosition(d));
      assert amount + CyclePosition(d) == CyclePosition(d) + amount;
      assert amount % 4 + CyclePosition(d) == CyclePosition(d) + amount % 4;
    }
  }

  /** The solver's opposite is the negated unit vector. */
  lemma OppositeIsNegation(d: nat)
    requires d < Count
    ensures Opposite(d) < Count
    ensures Vector(Opposite(d)) == Neg(Vector(d))
  {
  }

  /** Half a turn along the cycle reaches the opposite direction. */
  lemma CycleOpposite(d: nat, amount: nat)
    requires d < Count && IsHorizontal(d)
    ensures Horizontal[(CyclePosition(Opposite(d)) + amount) % 4]
         == Opposite(Horizontal[(CyclePosition(d) + amount) % 4])
  {
    var j := (CyclePosition(d) + amount) % 4;
    QuarterTurns(CyclePosition(d) + amount, 2);
    assert (CyclePosition(Opposite(d)) + amount) % 4 == (j + 2) % 4 by {
      assert d == 0 || d == 2 || d == 3 || d == 5;
      QuarterTurns(CyclePosition(d) + 2, amount);
    }
    assert j == 0 || j == 1 || j == 2 || j == 3;
  }

  /** Rotation commutes with taking the opposite. */
  lemma RotateCommutesWithOpposite(d: nat, amount: nat)
    requires d < Count
    ensures Rotate(Opposite(d), amount) == Opposite(Rotate(d, amount))
  {
    if IsHorizontal(d) {
      CycleOpposite(d, amount);
    }
  }

  /** `IsHorizontal` agrees with membership in the `horizontal` table. */
  lemma HorizontalIsTable(d: nat)
    requires d < Count
    ensures IsHorizontal(d) <==> d !in {Down, Up}
    ensures IsHorizontal(d) <==> d in Horizontal
  {
  }

  /** `GetIndex` inverts `Direction`. */
  lemma GetIndexInvertsVector(d: nat)
    requires d < Count
    ensures GetIndex(Vector(d)) == d
  {
  }
}

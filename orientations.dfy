/** The four horizontal directions of the older solver
    (Assets/Scripts/Orienations.cs): UP 0 (forward), LEFT 1, DOWN 2 (back),
    RIGHT 3. The opposite of `d` is `(d + 2) % 4`. */
module Orientations {
  import opened Basics

  const Forward := 0
  const Left := 1
  const Back := 2
  const Right := 3

  const Count := 4

  /** The table `PossibleDirections`. */
  const PossibleDirections: seq<int> := [0, 1, 2, 3]

  /** The rounded unit vectors of `Direction`, in direction order. */
  function Vector(d: nat): Vec3
    requires d < Count
  {
    [Vec3(0, 0, 1), Vec3(-1, 0, 0), Vec3(0, 0, -1), Vec3(1, 0, 0)][d]
  }

  function Opposite(d: nat): nat {
    (d + 2) % 4
  }

  /** `Rotate`: addition modulo four; `RotateReadsTable` shows it is the
      entry the source looks up, which never leaves the table. */
  function Rotate(d: nat, amount: nat): (r: int)
    requires d < Count
    ensures 0 <= r < Count
  {
    (d + amount) % 4
  }

  /** The source's lookup, the table index of `d` advanced by `amount` and
      reduced with C#'s `%`, stays inside the table and agrees with
      `Rotate`. */
  lemma RotateReadsTable(d: nat, amount: nat)
    requires d < Count
    ensures 0 <= Rem(IndexOf(PossibleDirections, d) + amount, 4) < |PossibleDirections|
    ensures PossibleDirections[Rem(IndexOf(PossibleDirections, d) + amount, 4)] == Rotate(d, amount)
  {
    assert IndexOf(PossibleDirections, d) == d by {
      assert d == 0 || d == 1 || d == 2 || d == 3;
    }
  }

  /** `GetIndex` as written, with integer sign tests. */
  function GetIndex(v: Vec3): int {
    if v.z > 0 then 0
    else if v.x > 0 then 1
    else if v.z < 0 then 2
    else 3
  }

  /** The index the direction table actually assigns to a unit vector: the
      inverse of `Vector` that `GetIndex` was evidently meant to be. */
  function DirectionIndex(v: Vec3): (r: nat)
    ensures r < Count
  {
    if v.z > 0 then 0
    else if v.x < 0 then 1
    else if v.z < 0 then 2
    else 3
  }

  /** The legacy opposite is the negated unit vector. */
  lemma OppositeIsNegation(d: nat)
    requires d < Count
    ensures Opposite(d) < Count
    ensures Vector(Opposite(d)) == Neg(Vector(d))
  {
  }

  /** `GetIndex` follows the sign tests in order and never leaves 0..3. */
  lemma GetIndexCases(v: Vec3)
    ensures 0 <= GetIndex(v) < Count
    ensures GetIndex(v) == 0 <==> v.z > 0
    ensures GetIndex(v) == 1 <==> v.z <= 0 && v.x > 0
    ensures GetIndex(v) == 2 <==> v.z < 0 && v.x <= 0
    ensures GetIndex(v) == 3 <==> v.z == 0 && v.x <= 0
  {
  }

  /** As written, `GetIndex` inverts the table only for forward and back:
      the left vector maps to RIGHT and the right vector to LEFT. */
  lemma GetIndexSwapsLeftAndRight()
    ensures GetIndex(Vector(Forward)) == Forward
    ensures GetIndex(Vector(Back)) == Back
    ensures GetIndex(Vector(Left)) == Right
    ensures GetIndex(Vector(Right)) == Left
  {
  }

  /** The corrected index inverts the table for every direction. */
  lemma DirectionIndexInvertsVector(d: nat)
    requires d < Count
    ensures DirectionIndex(Vector(d)) == d
  {
  }
}

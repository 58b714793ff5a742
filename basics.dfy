/** Values shared by every part of the solver model: integer grid vectors, an
    optional value, and the two pieces of C# integer semantics the source
    relies on (the truncating `%` operator and `Array.IndexOf`). */
module Basics {

  datatype Option<T> = None | Some(value: T)

  /** Unity's `Vector3Int`. */
  datatype Vec3 = Vec3(x: int, y: int, z: int)

  function Add(a: Vec3, b: Vec3): Vec3 {
    Vec3(a.x + b.x, a.y + b.y, a.z + b.z)
  }

  function Sub(a: Vec3, b: Vec3): Vec3 {
    Vec3(a.x - b.x, a.y - b.y, a.z - b.z)
  }

  function Neg(a: Vec3): Vec3 {
    Vec3(-a.x, -a.y, -a.z)
  }

  /** The squared length; the source compares `magnitude` (its square root)
      against an integer limit. */
  function SqrMagnitude(a: Vec3): int {
    a.x * a.x + a.y * a.y + a.z * a.z
  }

  /** C#'s `a % n`: the remainder takes the sign of the dividend. */
  function Rem(a: int, n: int): (r: int)
    requires n > 0
    ensures -n < r < n
    ensures a >= 0 ==> r >= 0
    ensures a <= 0 ==> r <= 0
  {
    if a >= 0 then a % n else -((-a) % n)
  }

  /** `Array.IndexOf`: the first position holding `x`, or -1. */
  function IndexOf(s: seq<int>, x: int): (r: int)
    ensures -1 <= r < |s|
    ensures r == -1 <==> x !in s
    ensures r >= 0 ==> s[r] == x && x !in s[..r]
  {
    if |s| == 0 then -1
    else if s[0] == x then 0
    else
      var i := IndexOf(s[1..], x);
      assert s[1..][..if i < 0 then 0 else i] == s[1..if i < 0 then 1 else i + 1];
      if i < 0 then -1 else i + 1
  }

  /** Reducing modulo four before adding more quarter turns changes nothing. */
  lemma QuarterTurns(a: nat, b: nat)
    ensures (a % 4 + b) % 4 == (a + b) % 4
  {
    var q := a / 4;
    assert a == 4 * q + a % 4;
  }
}

/** The 64-bit `long` words of the module set, each modelled as its 64 bits
    (bit 0 first), with the bitwise operators the set applies to them. */
module Words {
  const Width: nat := 64

  type Word = s: seq<bool> | |s| == Width witness seq(64, j => false)

  /** The word with every bit equal to `b`. */
  function Fill(b: bool): (w: Word)
    ensures forall j :: 0 <= j < Width ==> w[j] == b
  {
    seq(64, j => b)
  }

  /** `0`. */
  const Zero: Word := Fill(false)

  /** `~0`. */
  const Ones: Word := Fill(true)

  /** `a | b`. */
  function Or(a: Word, b: Word): Word {
    seq(64, j requires 0 <= j < 64 => a[j] || b[j])
  }

  /** `a & b`. */
  function And(a: Word, b: Word): Word {
    seq(64, j requires 0 <= j < 64 => a[j] && b[j])
  }

  /** `~a`. */
  function Not(a: Word): Word {
    seq(64, j requires 0 <= j < 64 => !a[j])
  }

  /** `(long)1 << k` for a shift `k` below 64. */
  function Single(k: nat): Word
    requires k < Width
  {
    seq(64, j => j == k)
  }

  /** `((long)1 << k) - 1` for a shift `k` below 64: the bits below `k`
      (for `k == 0`, `1 - 1`, no bits at all). */
  function LowBits(k: nat): Word
    requires k < Width
  {
    seq(64, j => j < k)
  }

  /** A word other than `0` has a set bit. */
  lemma NonZeroHasBit(w: Word)
    requires w != Zero
    ensures exists j :: 0 <= j < Width && w[j]
  {
  }

  /** A word other than `~0` has a clear bit. */
  lemma NotOnesHasGap(w: Word)
    requires w != Ones
    ensures exists j :: 0 <= j < Width && !w[j]
  {
  }

  /** `(w & (1 << k)) == 0` tests bit `k` of `w`. */
  lemma SingleMask(w: Word, k: nat)
    requires k < Width
    ensures And(w, Single(k)) == Zero <==> !w[k]
  {
    if And(w, Single(k)) == Zero {
      assert And(w, Single(k))[k] == w[k];
    }
  }

  /** The set bits of `w` below bit `j`, counted one bit at a time. */
  function BitsBelow(w: Word, j: nat): nat
    requires j <= Width
  {
    if j == 0 then 0 else BitsBelow(w, j - 1) + (if w[j - 1] then 1 else 0)
  }

  /** `CountBits`: the number of set bits of a word. */
  function CountBits(w: Word): nat {
    BitsBelow(w, Width)
  }
}

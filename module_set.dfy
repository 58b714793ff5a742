/** The bitset of module indices (Assets/Scripts/ModuleScripts/ModuleSet.cs,
    and its older copy Assets/Scripts/ModuleSet.cs): one bit per module of a
    catalog of `n` modules, packed into 64-bit words, with a cached entropy
    value that is recomputed only after the bits change. */
module ModuleSets {
  import opened Words

  const BitsPerItem: nat := 64

  /** Words allocated for `n` modules: the quotient, plus one for a remainder. */
  function WordCount(n: nat): nat {
    n / BitsPerItem + (if n % BitsPerItem == 0 then 0 else 1)
  }

  // ---------------------------------------------------------------------
  // Word sequences as sets of indices.

  /** Index `i` is set in the words `ws`. */
  predicate Has(ws: seq<Word>, i: nat) {
    i < 64 * |ws| && ws[i / 64][i % 64]
  }

  /** Every set bit, padding bits past the catalog included. */
  ghost function MembersOf(ws: seq<Word>): set<nat> {
    set i: nat | i < 64 * |ws| && Has(ws, i)
  }

  /** The modules of a catalog of `n`: the set bits below `n`. */
  ghost function ModulesOf(ws: seq<Word>, n: nat): set<nat> {
    set i: nat | i < n && Has(ws, i)
  }

  function Union(a: seq<Word>, b: seq<Word>): (r: seq<Word>)
    requires |a| == |b|
    ensures |r| == |a|
  {
    seq(|a|, k requires 0 <= k < |a| => Or(a[k], b[k]))
  }

  function Difference(a: seq<Word>, b: seq<Word>): (r: seq<Word>)
    requires |a| == |b|
    ensures |r| == |a|
  {
    seq(|a|, k requires 0 <= k < |a| => And(a[k], Not(b[k])))
  }

  function Intersection(a: seq<Word>, b: seq<Word>): (r: seq<Word>)
    requires |a| == |b|
    ensures |r| == |a|
  {
    seq(|a|, k requires 0 <= k < |a| => And(a[k], b[k]))
  }

  /** Word-wise OR is set union. */
  lemma UnionMembers(a: seq<Word>, b: seq<Word>)
    requires |a| == |b|
    ensures MembersOf(Union(a, b)) == MembersOf(a) + MembersOf(b)
  {
  }

  /** Word-wise AND-NOT is set difference. */
  lemma DifferenceMembers(a: seq<Word>, b: seq<Word>)
    requires |a| == |b|
    ensures MembersOf(Difference(a, b)) == MembersOf(a) - MembersOf(b)
  {
  }

  /** Word-wise AND is set intersection. */
  lemma IntersectionMembers(a: seq<Word>, b: seq<Word>)
    requires |a| == |b|
    ensures MembersOf(Intersection(a, b)) == MembersOf(a) * MembersOf(b)
  {
  }

  /** The modules are the members below the catalog size. */
  lemma ModulesAreMembersBelow(ws: seq<Word>, n: nat)
    requires |ws| == WordCount(n)
    ensures ModulesOf(ws, n) == set i | i in MembersOf(ws) && i < n
  {
  }

  // ---------------------------------------------------------------------
  // Counting.

  /** The set indices of `ws` below `x`, counted one index at a time. */
  function CountBelow(ws: seq<Word>, x: nat): nat {
    if x == 0 then 0 else CountBelow(ws, x - 1) + (if Has(ws, x - 1) then 1 else 0)
  }

  /** Counting through word `i` adds that word's bits. */
  lemma {:induction false} CountWord(ws: seq<Word>, i: nat, j: nat)
    requires i < |ws| && j <= 64
    ensures CountBelow(ws, 64 * i + j) == CountBelow(ws, 64 * i) + BitsBelow(ws[i], j)
  {
    if j > 0 {
      CountWord(ws, i, j - 1);
      assert (64 * i + j - 1) / 64 == i && (64 * i + j - 1) % 64 == j - 1;
    }
  }

  /** Counting one index at a time gives the cardinality of the set. */
  lemma {:induction false} CountIsCardinality(ws: seq<Word>, x: nat)
    ensures CountBelow(ws, x) == |set y: nat | y < x && Has(ws, y)|
  {
    if x > 0 {
      CountIsCardinality(ws, x - 1);
      var before := set y: nat | y < x - 1 && Has(ws, y);
      var after := set y: nat | y < x && Has(ws, y);
      if Has(ws, x - 1) {
        assert after == before + {x - 1};
      } else {
        assert after == before;
      }
    }
  }

  /** How many bits of the last word hold modules of a catalog of `n > 0`. */
  function LastBits(n: nat): nat {
    if n % 64 == 0 then 64 else n % 64
  }

  lemma LastWordSplit(n: nat)
    requires n > 0
    ensures WordCount(n) > 0 && n == 64 * (WordCount(n) - 1) + LastBits(n)
  {
  }

  /** `LastItemUsageMask` as written: `(1 << (n % 64)) - 1`. */
  function LastItemUsageMask(n: nat): Word {
    LowBits(n % 64)
  }

  /** The mask the last word evidently needs: its first `LastBits(n)` bits,
      which is every bit when `n` is a multiple of 64. */
  function UsageMask(n: nat): (mask: Word)
    ensures forall j :: 0 <= j < Width ==> (mask[j] <==> j < LastBits(n))
  {
    if n % 64 == 0 then Ones else LastItemUsageMask(n)
  }

  /** Masking keeps only the bits below `LastBits(n)`. */
  lemma {:induction false} MaskedBits(w: Word, n: nat, j: nat)
    requires j <= 64
    ensures BitsBelow(And(w, UsageMask(n)), j) == BitsBelow(w, if j < LastBits(n) then j else LastBits(n))
  {
    if j > 0 {
      MaskedBits(w, n, j - 1);
    }
  }

  /** What `Empty` computes with `LastItemUsageMask` as written. */
  predicate EmptyAsWritten(ws: seq<Word>, n: nat)
    requires |ws| > 0
  {
    (forall k :: 0 <= k < |ws| - 1 ==> ws[k] == Zero) && And(ws[|ws| - 1], LastItemUsageMask(n)) == Zero
  }

  /** For a catalog of 64 modules the mask is 0, so `Empty` as written
      ignores the last (here the only) word: it reports a set holding
      module 0 as empty. */
  lemma LastItemUsageMaskIgnoresLastWord()
    ensures LastItemUsageMask(64) == Zero
    ensures EmptyAsWritten([Single(0)], 64)
    ensures ModulesOf([Single(0)], 64) == {0}
  {
    assert And(Single(0), LowBits(0)) == Zero;
    assert Has([Single(0)], 0);
  }

  /** Every word of a catalog of `n` starts below `n`. */
  lemma WordsBelowCatalog(n: nat, i: nat)
    requires i < WordCount(n)
    ensures 64 * i < n
  {
  }

  // ---------------------------------------------------------------------
  // The set itself.

  class ModuleSet {
    /** `ModuleData.current.Length`: the size of the module catalog. */
    const n: nat
    const data: array<Word>
    var entropy: real
    var entropyOutdated: bool
    /** `FindEntropy`, as a function of the enumerated modules. */
    const findEntropy: set<nat> -> real

    /** The word count matches the catalog, and a cached entropy that is
        not marked outdated belongs to the current modules. */
    ghost predicate Valid()
      reads this, data
    {
      data.Length == WordCount(n)
      && (!entropyOutdated ==> entropy == findEntropy(ModulesOf(data[..], n)))
    }

    ghost function Members(): set<nat>
      reads data
    {
      MembersOf(data[..])
    }

    ghost function Modules(): set<nat>
      reads data
    {
      ModulesOf(data[..], n)
    }

    /** `ModuleSet(initializeFull)`: zeroed words, or every bit set,
        padding included. */
    constructor (n: nat, initializeFull: bool, findEntropy: set<nat> -> real)
      ensures Valid() && fresh(data)
      ensures this.n == n && this.findEntropy == findEntropy && entropyOutdated
      ensures initializeFull ==> forall i: nat :: i in Members() <==> i < 64 * WordCount(n)
      ensures initializeFull ==> forall i: nat :: i in Modules() <==> i < n
      ensures !initializeFull ==> Members() == {}
    {
      this.n := n;
      this.findEntropy := findEntropy;
      this.data := new Word[WordCount(n)](_ => Zero);
      this.entropy := 0.0;
      this.entropyOutdated := true;
      new;
      if initializeFull {
        var i := 0;
        while i < data.Length
          invariant 0 <= i <= data.Length
          invariant entropyOutdated
          invariant forall k :: 0 <= k < i ==> data[k] == Ones
        {
          data[i] := Ones;
          i := i + 1;
        }
      }
    }

    /** The enumerable constructor and `FromEnumerable`: an empty set with
        every listed module added. */
    constructor FromEnumerable(n: nat, source: seq<nat>, findEntropy: set<nat> -> real)
      requires forall k :: 0 <= k < |source| ==> source[k] < 64 * WordCount(n)
      ensures Valid() && fresh(data) && this.n == n && this.findEntropy == findEntropy
      ensures Members() == set x | x in source
    {
      this.n := n;
      this.findEntropy := findEntropy;
      this.data := new Word[WordCount(n)](_ => Zero);
      this.entropy := 0.0;
      this.entropyOutdated := true;
      new;
      var k := 0;
      while k < |source|
        invariant 0 <= k <= |source|
        invariant Valid()
        invariant Members() == set x | x in source[..k]
      {
        Add(source[k]);
        assert source[..k + 1] == source[..k] + [source[k]];
        k := k + 1;
      }
      assert source[..|source|] == source;
    }

    /** The copy constructor: a fresh copy of the words, with the source's
        entropy (computed on the way if it was outdated). */
    constructor Copy(source: ModuleSet)
      requires source.Valid()
      modifies source`entropy, source`entropyOutdated
      ensures Valid() && fresh(data) && !entropyOutdated
      ensures n == source.n && findEntropy == source.findEntropy
      ensures data[..] == old(source.data[..]) && source.data[..] == old(source.data[..])
      ensures source.Valid() && entropy == source.entropy
    {
      this.n := source.n;
      this.findEntropy := source.findEntropy;
      var words := new Word[source.data.Length](_ => Zero);
      var i := 0;
      while i < words.Length
        invariant 0 <= i <= words.Length
        invariant forall k :: 0 <= k < i ==> words[k] == source.data[k]
        invariant source.Valid()
      {
        words[i] := source.data[i];
        i := i + 1;
      }
      assert words[..] == source.data[..];
      this.data := words;
      var e := source.Entropy();
      this.entropy := e;
      this.entropyOutdated := false;
    }

    /** `Add(module)`: sets one bit; the entropy is marked outdated only if
        the bit was clear. */
    method Add(m: nat)
      requires Valid() && m < 64 * data.Length
      modifies this`entropyOutdated, data
      ensures Valid()
      ensures Members() == old(Members()) + {m}
      ensures m in old(Members()) ==> data[..] == old(data[..]) && entropyOutdated == old(entropyOutdated)
      ensures m !in old(Members()) ==> entropyOutdated
    {
      var i := m / BitsPerItem;
      var mask := Single(m % BitsPerItem);
      var value := data[i];
      SingleMask(value, m % BitsPerItem);
      if And(value, mask) == Zero {
        data[i] := Or(value, mask);
        entropyOutdated := true;
        assert forall x: nat :: x / 64 == i ==> (data[i][x % 64] <==> value[x % 64] || x == m);
      } else {
        assert value[m % 64];
      }
    }

    /** `Remove(module)`: clears one bit and reports whether it was set. */
    method Remove(m: nat) returns (removed: bool)
      requires Valid() && m < 64 * data.Length
      modifies this`entropyOutdated, data
      ensures Valid()
      ensures removed <==> m in old(Members())
      ensures Members() == old(Members()) - {m}
      ensures !removed ==> data[..] == old(data[..]) && entropyOutdated == old(entropyOutdated)
      ensures removed ==> entropyOutdated
    {
      var i := m / BitsPerItem;
      var mask := Single(m % BitsPerItem);
      var value := data[i];
      SingleMask(value, m % BitsPerItem);
      if And(value, mask) != Zero {
        data[i] := And(value, Not(mask));
        entropyOutdated := true;
        assert forall x: nat :: x / 64 == i ==> (data[i][x % 64] <==> value[x % 64] && x != m);
        removed := true;
      } else {
        removed := false;
      }
    }

    /** `Contains`. */
    method Contains(index: nat) returns (b: bool)
      requires Valid() && index < 64 * data.Length
      ensures b <==> index in Members()
    {
      var i := index / BitsPerItem;
      var mask := Single(index % BitsPerItem);
      SingleMask(data[i], index % BitsPerItem);
      b := And(data[i], mask) != Zero;
    }

    /** `Clear`: marks the entropy outdated and zeroes every word. */
    method Clear()
      requires Valid()
      modifies this`entropyOutdated, data
      ensures Valid() && entropyOutdated
      ensures Members() == {} && Modules() == {}
    {
      entropyOutdated := true;
      var i := 0;
      while i < data.Length
        invariant 0 <= i <= data.Length
        invariant entropyOutdated
        invariant forall k :: 0 <= k < i ==> data[k] == Zero
      {
        data[i] := Zero;
        i := i + 1;
      }
    }

    /** `Add(set)`: word-wise OR, marking the entropy outdated when a word
        changes. */
    method AddSet(other: ModuleSet)
      requires Valid() && other.Valid() && other.data.Length == data.Length
      modifies this`entropyOutdated, data
      ensures Valid()
      ensures data[..] == Union(old(data[..]), old(other.data[..]))
      ensures Members() == old(Members()) + old(other.Members())
      ensures entropyOutdated <==> old(entropyOutdated) || data[..] != old(data[..])
    {
      var i := 0;
      while i < data.Length
        invariant 0 <= i <= data.Length
        invariant forall k :: 0 <= k < i ==> data[k] == Or(old(data[k]), old(other.data[k]))
        invariant forall k :: i <= k < data.Length ==> data[k] == old(data[k])
        invariant forall k :: i <= k < data.Length ==> other.data[k] == old(other.data[k])
        invariant entropyOutdated <==>
          old(entropyOutdated) || exists k :: 0 <= k < i && data[k] != old(data[k])
      {
        var current := data[i];
        var updated := Or(current, other.data[i]);
        if current != updated {
          data[i] := updated;
          entropyOutdated := true;
        }
        i := i + 1;
      }
      assert data[..] == Union(old(data[..]), old(other.data[..]));
      UnionMembers(old(data[..]), old(other.data[..]));
      WordsChanged(data[..], old(data[..]));
    }

    /** `Remove(set)`: word-wise AND-NOT. */
    method RemoveSet(other: ModuleSet)
      requires Valid() && other.Valid() && other.data.Length == data.Length
      modifies this`entropyOutdated, data
      ensures Valid()
      ensures data[..] == Difference(old(data[..]), old(other.data[..]))
      ensures Members() == old(Members()) - old(other.Members())
      ensures entropyOutdated <==> old(entropyOutdated) || data[..] != old(data[..])
    {
      var i := 0;
      while i < data.Length
        invariant 0 <= i <= data.Length
        invariant forall k :: 0 <= k < i ==> data[k] == And(old(data[k]), Not(old(other.data[k])))
        invariant forall k :: i <= k < data.Length ==> data[k] == old(data[k])
        invariant forall k :: i <= k < data.Length ==> other.data[k] == old(other.data[k])
        invariant entropyOutdated <==>
          old(entropyOutdated) || exists k :: 0 <= k < i && data[k] != old(data[k])
      {
        var current := data[i];
        var updated := And(current, Not(other.data[i]));
        if current != updated {
          data[i] := updated;
          entropyOutdated := true;
        }
        i := i + 1;
      }
      assert data[..] == Difference(old(data[..]), old(other.data[..]));
      DifferenceMembers(old(data[..]), old(other.data[..]));
      WordsChanged(data[..], old(data[..]));
    }

    /** `Intersect(set)`: word-wise AND. */
    method Intersect(other: ModuleSet)
      requires Valid() && other.Valid() && other.data.Length == data.Length
      modifies this`entropyOutdated, data
      ensures Valid()
      ensures data[..] == Intersection(old(data[..]), old(other.data[..]))
      ensures Members() == old(Members()) * old(other.Members())
      ensures entropyOutdated <==> old(entropyOutdated) || data[..] != old(data[..])
    {
      var i := 0;
      while i < data.Length
        invariant 0 <= i <= data.Length
        invariant forall k :: 0 <= k < i ==> data[k] == And(old(data[k]), old(other.data[k]))
        invariant forall k :: i <= k < data.Length ==> data[k] == old(data[k])
        invariant forall k :: i <= k < data.Length ==> other.data[k] == old(other.data[k])
        invariant entropyOutdated <==>
          old(entropyOutdated) || exists k :: 0 <= k < i && data[k] != old(data[k])
      {
        var current := data[i];
        var mask := other.data[i];
        var updated := And(current, mask);
        if current != updated {
          data[i] := updated;
          entropyOutdated := true;
        }
        i := i + 1;
      }
      assert data[..] == Intersection(old(data[..]), old(other.data[..]));
      IntersectionMembers(old(data[..]), old(other.data[..]));
      WordsChanged(data[..], old(data[..]));
    }

    /** `Count`: the bits of every word but the last, plus the masked last
        word; with the corrected mask this is the number of modules. */
    method Count() returns (c: nat)
      requires Valid() && n > 0
      ensures c == |Modules()|
    {
      LastWordSplit(n);
      var ws := data[..];
      c := 0;
      var i := 0;
      while i < data.Length - 1
        invariant 0 <= i <= data.Length - 1
        invariant c == CountBelow(ws, 64 * i)
      {
        CountWord(ws, i, 64);
        c := c + CountBits(data[i]);
        i := i + 1;
      }
      var last := data[data.Length - 1];
      MaskedBits(last, n, 64);
      CountWord(ws, data.Length - 1, LastBits(n));
      c := c + CountBits(And(last, UsageMask(n)));
      CountIsCardinality(ws, n);
    }

    /** `Empty`: every word but the last is zero and the masked last word is
        zero; with the corrected mask, exactly when there are no modules. */
    method Empty() returns (e: bool)
      requires Valid() && n > 0
      ensures e <==> Modules() == {}
    {
      LastWordSplit(n);
      var i := 0;
      while i < data.Length - 1
        invariant 0 <= i <= data.Length - 1
        invariant forall k :: 0 <= k < i ==> data[k] == Zero
      {
        if data[i] != Zero {
          NonZeroHasBit(data[i]);
          var j :| 0 <= j < 64 && data[i][j];
          assert Has(data[..], 64 * i + j);
          assert 64 * i + j in Modules();
          return false;
        }
        i := i + 1;
      }
      var last := data[data.Length - 1];
      var masked := And(last, UsageMask(n));
      e := masked == Zero;
      if e {
        forall x: nat | x < n ensures !Has(data[..], x) {
          if x / 64 == data.Length - 1 {
            assert masked[x % 64] == data[x / 64][x % 64];
          } else {
            assert data[x / 64] == Zero;
          }
        }
      } else {
        NonZeroHasBit(masked);
        var j :| 0 <= j < 64 && masked[j];
        assert Has(data[..], 64 * (data.Length - 1) + j);
        assert 64 * (data.Length - 1) + j in Modules();
      }
    }

    /** `Full`: every word but the last is all ones and the masked last word
        has no gap; with the corrected mask, exactly when every module of
        the catalog is present. */
    method Full() returns (f: bool)
      requires Valid() && n > 0
      ensures f <==> forall x: nat :: x < n ==> x in Modules()
    {
      LastWordSplit(n);
      var i := 0;
      while i < data.Length - 1
        invariant 0 <= i <= data.Length - 1
        invariant forall k :: 0 <= k < i ==> data[k] == Ones
      {
        if data[i] != Ones {
          NotOnesHasGap(data[i]);
          var j :| 0 <= j < 64 && !data[i][j];
          assert 64 * i + j !in Modules();
          return false;
        }
        i := i + 1;
      }
      var last := data[data.Length - 1];
      var gaps := And(Not(last), UsageMask(n));
      f := gaps == Zero;
      if f {
        forall x: nat | x < n ensures x in Modules() {
          if x / 64 == data.Length - 1 {
            assert !gaps[x % 64];
          }
        }
      } else {
        NonZeroHasBit(gaps);
        var j :| 0 <= j < 64 && gaps[j];
        assert 64 * (data.Length - 1) + j !in Modules();
      }
    }

    /** The enumerator: skips zero words, yields set bits in increasing
        order, and stops once the index reaches the catalog size. */
    method Enumerate() returns (xs: seq<nat>)
      requires Valid()
      ensures forall k, l :: 0 <= k < l < |xs| ==> xs[k] < xs[l]
      ensures forall x :: x in xs <==> x in Modules()
    {
      xs := [];
      var index := 0;
      var i := 0;
      while i < data.Length
        invariant 0 <= i <= data.Length
        invariant index == 64 * i
        invariant forall k, l :: 0 <= k < l < |xs| ==> xs[k] < xs[l]
        invariant forall k :: 0 <= k < |xs| ==> xs[k] < index
        invariant forall x: nat :: x in xs <==> x < index && x < n && Has(data[..], x)
      {
        var value := data[i];
        if value == Zero {
          index := index + BitsPerItem;
          i := i + 1;
          continue;
        }
        WordsBelowCatalog(n, i);
        var j := 0;
        while j < BitsPerItem
          invariant 0 <= j <= 64
          invariant index == 64 * i + j && index < n
          invariant forall k, l :: 0 <= k < l < |xs| ==> xs[k] < xs[l]
          invariant forall k :: 0 <= k < |xs| ==> xs[k] < index
          invariant forall x: nat :: x in xs <==> x < index && x < n && Has(data[..], x)
        {
          SingleMask(value, j);
          if And(value, Single(j)) != Zero {
            xs := xs + [index];
          }
          index := index + 1;
          if index >= n {
            return;
          }
          j := j + 1;
        }
        i := i + 1;
      }
    }

    /** `Entropy`: recomputed from the enumerated modules when outdated,
        otherwise the cached value. */
    method Entropy() returns (e: real)
      requires Valid()
      modifies this`entropy, this`entropyOutdated
      ensures Valid() && !entropyOutdated
      ensures e == entropy == findEntropy(Modules())
    {
      if entropyOutdated {
        var xs := Enumerate();
        var found := set x | x in xs;
        assert found == Modules();
        entropy := findEntropy(found);
        assert entropy == findEntropy(ModulesOf(data[..], n));
        entropyOutdated := false;
      }
      e := entropy;
    }
  }

  /** Sequences differ exactly when some position differs. */
  lemma WordsChanged(a: seq<Word>, b: seq<Word>)
    requires |a| == |b|
    ensures a != b <==> exists k :: 0 <= k < |a| && a[k] != b[k]
  {
  }
}

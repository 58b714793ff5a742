/** The bounded history stack (Assets/Scripts/RingBuffer.cs): a fixed array
    used as a circular stack, where pushing onto a full buffer overwrites,
    and hands to the overflow callback, the oldest item. */
module RingBuffers {
  import opened Basics

  // ---------------------------------------------------------------------
  // The abstract buffer: the items that can still be popped, oldest first.

  datatype Ring<T> = Ring(size: nat, items: seq<T>, position: nat, total: int)

  /** The shape every reachable buffer keeps: at most `size` items, a
      position inside the array, and `TotalCount` never below `Count`. */
  predicate Inv<T>(r: Ring<T>) {
    |r.items| <= r.size
    && (if r.size == 0 then r.position == 0 else r.position < r.size)
    && r.total >= |r.items|
  }

  function Empty<T>(size: nat): (r: Ring<T>)
    ensures Inv(r) && r.items == [] && r.total == 0
  {
    Ring(size, [], 0, 0)
  }

  /** The slot after `p` in a ring of `n` slots. */
  function Next(p: nat, n: nat): (q: nat)
    requires n > 0
    ensures q < n
    ensures p < n ==> q == if p + 1 == n then 0 else p + 1
  {
    (p + 1) % n
  }

  /** The slot before `p` in a ring of `n` slots. */
  function Back(p: nat, n: nat): (q: nat)
    requires n > 0
    ensures q < n
    ensures p < n ==> q == if p == 0 then n - 1 else p - 1
  {
    (p + n - 1) % n
  }

  /** `Push`: the item becomes the top; on a full buffer the oldest item
      falls off the bottom. */
  function Pushed<T>(r: Ring<T>, x: T): Ring<T>
    requires r.size > 0
  {
    Ring(r.size,
         (if |r.items| == r.size then r.items[1..] else r.items) + [x],
         Next(r.position, r.size),
         r.total + 1)
  }

  /** What `Push` hands to the overflow callback: the oldest item, exactly
      when the buffer was full. */
  function Evicted<T>(r: Ring<T>): (e: Option<T>)
    requires r.size > 0 && Inv(r)
    ensures e.Some? <==> |r.items| == r.size
  {
    if |r.items| == r.size then Some(r.items[0]) else None
  }

  /** The top item, if any (`Peek`, and the value `Pop` returns). */
  function Top<T>(r: Ring<T>): (t: Option<T>)
    ensures t.None? <==> |r.items| == 0
    ensures t.Some? ==> t.value == r.items[|r.items| - 1]
  {
    if |r.items| == 0 then None else Some(r.items[|r.items| - 1])
  }

  /** `Pop` on a non-empty buffer: the top goes, the position steps back,
      and `TotalCount` falls by one. */
  function Popped<T>(r: Ring<T>): Ring<T>
    requires r.size > 0 && |r.items| > 0
  {
    Ring(r.size, r.items[..|r.items| - 1], Back(r.position, r.size), r.total - 1)
  }

  /** `Push` and `Pop` keep the shape: `0 <= Count <= Size`. */
  lemma PushPopKeepInv<T>(r: Ring<T>, x: T)
    requires Inv(r) && r.size > 0
    ensures Inv(Pushed(r, x))
    ensures |Pushed(r, x).items| == if |r.items| < r.size then |r.items| + 1 else r.size
    ensures |r.items| > 0 ==> Inv(Popped(r)) && |Popped(r).items| == |r.items| - 1
  {
  }

  /** Stack order: the item just pushed is the one `Pop` returns. */
  lemma PopReturnsLastPushed<T>(r: Ring<T>, x: T)
    requires Inv(r) && r.size > 0
    ensures Top(Pushed(r, x)) == Some(x)
  {
  }

  /** A push followed by a pop restores the position and `TotalCount`,
      and, below capacity, the whole buffer; on a full buffer the evicted
      item is lost. */
  lemma PushThenPop<T>(r: Ring<T>, x: T)
    requires Inv(r) && r.size > 0
    ensures Popped(Pushed(r, x)).position == r.position
    ensures Popped(Pushed(r, x)).total == r.total
    ensures |r.items| < r.size ==> Popped(Pushed(r, x)) == r
    ensures |r.items| == r.size ==> Popped(Pushed(r, x)).items == r.items[1..]
  {
    var p := Pushed(r, x);
    var kept := if |r.items| == r.size then r.items[1..] else r.items;
    assert p.items[..|p.items| - 1] == kept;
  }

  /** Pushing a whole sequence, one item after another. */
  function PushAll<T>(r: Ring<T>, xs: seq<T>): Ring<T>
    requires r.size > 0
    decreases |xs|
  {
    if xs == [] then r else PushAll(Pushed(r, xs[0]), xs[1..])
  }

  /** The last `n` elements of `s` (all of them when there are fewer). */
  function Last<T>(s: seq<T>, n: nat): (t: seq<T>)
    ensures |t| == if |s| <= n then |s| else n
  {
    if |s| <= n then s else s[|s| - n..]
  }

  /** After any run of pushes only the last `Size` items remain to be
      popped, and `TotalCount` has grown by the number of pushes. */
  lemma {:induction false} PushAllKeepsLast<T>(r: Ring<T>, xs: seq<T>)
    requires Inv(r) && r.size > 0
    decreases |xs|
    ensures Inv(PushAll(r, xs))
    ensures PushAll(r, xs).items == Last(r.items + xs, r.size)
    ensures PushAll(r, xs).total == r.total + |xs|
  {
    if xs != [] {
      var p := Pushed(r, xs[0]);
      var a := r.items + [xs[0]];
      PushPopKeepInv(r, xs[0]);
      PushAllKeepsLast(p, xs[1..]);
      assert p.items == if |a| == r.size + 1 then a[1..] else a;
      assert a + xs[1..] == r.items + xs;
      LastOfLast(a, xs[1..], r.size);
    }
  }

  /** Dropping from the front before appending does not change the last
      `n` elements once the front was beyond them. */
  lemma LastOfLast<T>(a: seq<T>, b: seq<T>, n: nat)
    requires n > 0 && |a| <= n + 1
    ensures Last((if |a| == n + 1 then a[1..] else a) + b, n) == Last(a + b, n)
  {
    if |a| == n + 1 {
      assert a + b == [a[0]] + (a[1..] + b);
    }
  }

  /** Pushing more than `Size` items onto an empty buffer leaves exactly
      the last `Size` of them, so the `Size + 1`-th pop finds it empty. */
  lemma OverflowKeepsOnlySize<T>(size: nat, xs: seq<T>)
    requires size > 0 && |xs| > size
    ensures PushAll(Empty(size), xs).items == xs[|xs| - size..]
    ensures |PushAll(Empty(size), xs).items| == size
  {
    PushAllKeepsLast(Empty<T>(size), xs);
    assert Empty<T>(size).items + xs == xs;
  }

  // ---------------------------------------------------------------------
  // The buffer itself.

  /** How far slot `i` lies behind position `p` of a ring of `size`
      slots, walking backwards. */
  function Behind(i: nat, p: nat, size: nat): nat
    requires i < size && p < size
  {
    if i <= p then p - i else p + size - i
  }

  /** After a push moves the position one step on, the new position is
      the furthest slot behind the old one and every other slot moves one
      step further behind. */
  lemma BehindAfterPush(i: nat, p: nat, size: nat)
    requires i < size && p < size
    ensures var q := if p + 1 == size then 0 else p + 1;
            Behind(q, p, size) == size - 1
            && (i == q ==> Behind(i, q, size) == 0)
            && (i != q ==> Behind(i, q, size) == Behind(i, p, size) + 1)
  {
  }

  /** After a pop moves the position one step back, the old position is
      the furthest slot behind and every other slot comes one step nearer. */
  lemma BehindAfterPop(i: nat, p: nat, size: nat)
    requires i < size && p < size
    ensures var q := if p == 0 then size - 1 else p - 1;
            Behind(p, q, size) == size - 1
            && (i != p ==> Behind(i, q, size) + 1 == Behind(i, p, size))
  {
  }

  /** The slot `k` steps behind `p` holds the `k`-th newest item, and every
      slot past the newest `|items|` is cleared. */
  ghost predicate SlotsHold<T>(buf: seq<Option<T>>, p: nat, items: seq<T>)
    requires p < |buf|
  {
    forall i :: 0 <= i < |buf| ==>
      buf[i] == if Behind(i, p, |buf|) < |items|
                then Some(items[|items| - 1 - Behind(i, p, |buf|)])
                else None
  }

  /** Writing the item one step on keeps the slots in order, and the slot
      it overwrites held the oldest item exactly when the buffer was full. */
  lemma PushSlots<T>(buf: seq<Option<T>>, p: nat, items: seq<T>, x: T)
    requires p < |buf| && |items| <= |buf| && SlotsHold(buf, p, items)
    ensures var q := if p + 1 == |buf| then 0 else p + 1;
            SlotsHold(buf[q := Some(x)], q, (if |items| == |buf| then items[1..] else items) + [x])
            && buf[q] == if |items| == |buf| then Some(items[0]) else None
  {
    var q := if p + 1 == |buf| then 0 else p + 1;
    var after := (if |items| == |buf| then items[1..] else items) + [x];
    BehindAfterPush(q, p, |buf|);
    forall i | 0 <= i < |buf|
      ensures buf[q := Some(x)][i] == if Behind(i, q, |buf|) < |after|
                                      then Some(after[|after| - 1 - Behind(i, q, |buf|)])
                                      else None
    {
      BehindAfterPush(i, p, |buf|);
    }
  }

  /** Clearing the top slot and stepping back keeps the slots in order. */
  lemma PopSlots<T>(buf: seq<Option<T>>, p: nat, items: seq<T>)
    requires p < |buf| && 0 < |items| <= |buf| && SlotsHold(buf, p, items)
    ensures buf[p] == Some(items[|items| - 1])
    ensures var q := if p == 0 then |buf| - 1 else p - 1;
            SlotsHold(buf[p := None], q, items[..|items| - 1])
  {
    var q := if p == 0 then |buf| - 1 else p - 1;
    var after := items[..|items| - 1];
    assert Behind(p, p, |buf|) == 0;
    forall i | 0 <= i < |buf|
      ensures buf[p := None][i] == if Behind(i, q, |buf|) < |after|
                                   then Some(after[|after| - 1 - Behind(i, q, |buf|)])
                                   else None
    {
      BehindAfterPop(i, p, |buf|);
    }
  }

  class RingBuffer<T> {
    const Size: nat
    /** The slots; `None` is `default(T)`, the value `Pop` writes back. */
    const buffer: array<Option<T>>
    var position: nat
    var Count: nat
    var TotalCount: int
    /** The items that can still be popped, oldest first. */
    ghost var items: seq<T>

    /** The buffer holds the items in order, newest at `position`. */
    ghost predicate Valid()
      reads this, buffer
    {
      buffer.Length == Size
      && Inv(Model())
      && Count == |items|
      && (Size > 0 ==> SlotsHold(buffer[..], position, items))
    }

    ghost function Model(): Ring<T>
      reads this
    {
      Ring(Size, items, position, TotalCount)
    }

    constructor (size: nat)
      ensures Valid() && Size == size && Model() == Empty(size) && fresh(buffer)
    {
      Size := size;
      buffer := new Option<T>[size](_ => None);
      Count := 0;
      position := 0;
      TotalCount := 0;
      items := [];
    }

    /** `Push`: returns the item it passes to `OnOverflow`, if any. */
    method Push(item: T) returns (evicted: Option<T>)
      requires Valid() && Size > 0
      modifies this, buffer
      ensures Valid()
      ensures Model() == Pushed(old(Model()), item)
      ensures evicted == Evicted(old(Model()))
    {
      ghost var slots := buffer[..];
      PushSlots(slots, position, items, item);
      ghost var p := position;
      position := Next(position, Size);
      evicted := None;
      if buffer[position].Some? {
        evicted := buffer[position];
      }
      buffer[position] := Some(item);
      Count := Count + 1;
      if Count > Size {
        Count := Size;
      }
      TotalCount := TotalCount + 1;
      items := (if |items| == Size then items[1..] else items) + [item];
      assert buffer[..] == slots[position := Some(item)];
    }

    /** `Peek`: the top item, or `None` where the source throws. */
    method Peek() returns (t: Option<T>)
      requires Valid()
      ensures t == Top(Model())
    {
      if Count == 0 {
        return None;
      }
      PopSlots(buffer[..], position, items);
      t := buffer[position];
    }

    /** `Pop`: removes and returns the top item; an empty buffer (where the
        source throws) is left unchanged. */
    method Pop() returns (t: Option<T>)
      requires Valid()
      modifies this, buffer
      ensures Valid()
      ensures t == Top(old(Model()))
      ensures t.None? ==> Model() == old(Model())
      ensures t.Some? ==> Size > 0 && |old(Model()).items| > 0 && Model() == Popped(old(Model()))
    {
      if Count == 0 {
        return None;
      }
      ghost var slots := buffer[..];
      PopSlots(slots, position, items);
      ghost var p := position;
      t := buffer[position];
      buffer[position] := None;
      position := Back(position, Size);
      Count := Count - 1;
      TotalCount := TotalCount - 1;
      items := items[..|items| - 1];
      assert buffer[..] == slots[p := None];
    }

    /** `Any`. */
    method Any() returns (b: bool)
      requires Valid()
      ensures b <==> |Model().items| > 0
    {
      b := Count != 0;
    }
  }
}

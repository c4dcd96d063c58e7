/**
 * The single-producer single-consumer ring buffer, taken sequentially: a
 * power-of-two array of slots, a head and a tail index that only grow
 * (slot = index & mask), and each side's cached copy of the other side's
 * index. The indices are unbounded naturals here, so they never wrap.
 */
module Spsc {
  import opened Arith

  /** Bitwise AND of two naturals, bit by bit from the least significant. */
  function AndMask(x: nat, m: nat): nat
  {
    if x == 0 || m == 0 then 0
    else 2 * AndMask(x / 2, m / 2) + (if x % 2 == 1 && m % 2 == 1 then 1 else 0)
  }

  predicate IsPow2(n: nat)
  {
    n == 1 || (n >= 2 && n % 2 == 0 && IsPow2(n / 2))
  }

  /** The remainder of `i` by `c`, by repeated subtraction. */
  function Mod(i: nat, c: nat): (r: nat)
    requires c > 0
    ensures r < c
    decreases i
  {
    if i < c then i else Mod(i - c, c)
  }

  lemma MulAtLeast(k: int, d: nat)
    requires k >= 1
    ensures k * d >= d
    decreases k
  {
    if k > 1 {
      MulAtLeast(k - 1, d);
      assert k * d == (k - 1) * d + d;
    }
  }

  /** Quotient and remainder are unique. */
  lemma ModUnique(x: nat, d: nat, q: nat, r: nat)
    requires 0 <= r < d && x == q * d + r
    ensures x % d == r && x / d == q
  {
    var q', r' := x / d, x % d;
    assert x == q' * d + r';
    assert (q' - q) * d == r - r' by {
      assert q' * d - q * d == (q' - q) * d;
    }
    if q' - q >= 1 {
      MulAtLeast(q' - q, d);
    } else if q - q' >= 1 {
      assert (q - q') * d == r' - r;
      MulAtLeast(q - q', d);
    }
  }

  /** `Mod` is Dafny's remainder operator on naturals. */
  lemma {:induction false} ModIsRemainder(i: nat, c: nat)
    requires c > 0
    ensures Mod(i, c) == i % c
    decreases i
  {
    if i < c {
      ModUnique(i, c, 0, i);
    } else {
      ModIsRemainder(i - c, c);
      var q := (i - c) / c;
      assert i - c == q * c + (i - c) % c;
      assert i == (q + 1) * c + (i - c) % c;
      ModUnique(i, c, q + 1, (i - c) % c);
    }
  }

  /** Reduction modulo `2h` through the halved value. */
  lemma {:induction false} HalveMod(x: nat, h: nat)
    requires h >= 1
    ensures Mod(x, 2 * h) == 2 * Mod(x / 2, h) + x % 2
    decreases x
  {
    if x >= 2 * h {
      HalveMod(x - 2 * h, h);
      assert (x - 2 * h) / 2 == x / 2 - h && (x - 2 * h) % 2 == x % 2;
    }
  }

  /** Masking with `c - 1` is reduction modulo `c` when `c` is a power of two. */
  lemma {:induction false} AndMaskPow2(x: nat, c: nat)
    requires IsPow2(c)
    ensures AndMask(x, c - 1) == Mod(x, c)
    decreases c
  {
    if c == 1 {
      ModIsRemainder(x, 1);
    } else if x == 0 {
    } else {
      var h := c / 2;
      assert (c - 1) / 2 == h - 1 && (c - 1) % 2 == 1;
      assert AndMask(x, c - 1) == 2 * AndMask(x / 2, h - 1) + x % 2;
      AndMaskPow2(x / 2, h);
      HalveMod(x, h);
    }
  }

  /**
   * The constructor's check `c && (c & (c - 1)) == 0` accepts exactly the
   * powers of two.
   */
  lemma {:induction false} PowerOfTwoTest(c: nat)
    ensures (c != 0 && AndMask(c, c - 1) == 0) <==> IsPow2(c)
    decreases c
  {
    if c >= 2 {
      var h := c / 2;
      if c % 2 == 0 {
        assert (c - 1) / 2 == h - 1 && (c - 1) % 2 == 1;
        assert AndMask(c, c - 1) == 2 * AndMask(h, h - 1);
        PowerOfTwoTest(h);
      } else {
        assert (c - 1) / 2 == h && (c - 1) % 2 == 0;
        AndMaskSelf(h);
        assert AndMask(c, c - 1) == 2 * AndMask(h, h);
      }
    }
  }

  lemma {:induction false} AndMaskSelf(x: nat)
    ensures AndMask(x, x) == x
    decreases x
  {
    if x > 0 {
      AndMaskSelf(x / 2);
    }
  }

  /** Distinct indices less than `c` apart fall in distinct slots. */
  lemma {:induction false} ModDistinct(a: nat, b: nat, c: nat)
    requires c > 0 && a < b < a + c
    ensures Mod(a, c) != Mod(b, c)
    decreases a
  {
    if a >= c {
      ModDistinct(a - c, b - c, c);
    } else if b >= c {
      assert Mod(b, c) == Mod(b - c, c);
    }
  }

  /** The `n` elements stored from index `start` on in the ring `buf`. */
  function Window<T>(buf: seq<T>, start: nat, n: nat): seq<T>
    requires |buf| > 0
  {
    seq(n, i requires 0 <= i < n => buf[Mod(start + i, |buf|)])
  }

  /**
   * Writing `v` into the slot after a window that does not fill the ring
   * extends the window by `v` and leaves its elements alone.
   */
  lemma WindowPush<T>(buf: seq<T>, start: nat, n: nat, v: T)
    requires 0 < |buf| && n < |buf|
    ensures Window(buf[Mod(start + n, |buf|) := v], start, n + 1) == Window(buf, start, n) + [v]
  {
    var w', w := Window(buf[Mod(start + n, |buf|) := v], start, n + 1), Window(buf, start, n);
    forall i | 0 <= i < n ensures w'[i] == w[i] {
      ModDistinct(start + i, start + n, |buf|);
    }
  }

  /** The oldest element of a non-empty window is at the slot of `start`; the rest is the window one further on. */
  lemma WindowPop<T>(buf: seq<T>, start: nat, n: nat)
    requires 0 < |buf| && 0 < n
    ensures Window(buf, start, n)[0] == buf[Mod(start, |buf|)]
    ensures Window(buf, start, n)[1..] == Window(buf, start + 1, n - 1)
  {
  }

  /** Taking `k` elements off the front of a window leaves the window `k` further on. */
  lemma WindowDrop<T>(buf: seq<T>, start: nat, n: nat, k: nat)
    requires 0 < |buf| && k <= n
    ensures Window(buf, start, n)[k..] == Window(buf, start + k, n - k)
    ensures forall i :: 0 <= i < k ==> Window(buf, start, n)[i] == buf[Mod(start + i, |buf|)]
  {
  }

  class SpscRing<T(0)> {
    const buffer: array<T>
    const capacity: nat
    const mask: nat
    var head: nat
    var tail: nat
    /** The producer's copy of `head`, refreshed only when the ring looks full. */
    var headCache: nat
    /** The consumer's copy of `tail`, refreshed only when the ring looks empty. */
    var tailCache: nat

    /**
     * Both indices only grow and never more than `capacity` apart; each
     * cache lags behind the index it copies, the consumer's never behind
     * its own head and the producer's never a full ring behind its tail.
     */
    ghost predicate Valid()
      reads this
    {
      && buffer.Length == capacity && IsPow2(capacity) && mask == capacity - 1
      && headCache <= head <= tail <= head + capacity
      && tail <= headCache + capacity
      && head <= tailCache <= tail
    }

    /** The queued elements, oldest first. */
    ghost function Contents(): seq<T>
      reads this, buffer
    {
      if buffer.Length == 0 || tail < head then [] else Window(buffer[..], head, tail - head)
    }

    constructor(capacityPow2: nat)
      requires capacityPow2 != 0 && AndMask(capacityPow2, capacityPow2 - 1) == 0
      ensures Valid() && Contents() == [] && capacity == capacityPow2
      ensures head == 0 && tail == 0 && headCache == 0 && tailCache == 0
      ensures fresh(buffer)
    {
      PowerOfTwoTest(capacityPow2);
      capacity := capacityPow2;
      mask := capacityPow2 - 1;
      buffer := new T[capacityPow2];
      head, tail, headCache, tailCache := 0, 0, 0, 0;
    }

    /** The slot of index `i`. */
    function Slot(i: nat): (s: nat)
      reads this
      requires Valid()
      ensures s == Mod(i, capacity) && s < buffer.Length
    {
      AndMaskPow2(i, capacity);
      AndMask(i, mask)
    }

    /**
     * The producer's view of `head`: the cached copy, re-read from `head`
     * when the ring looks full through it.
     */
    method HeadCacheForProducer() returns (h: nat)
      requires Valid()
      modifies `headCache
      ensures Valid() && h == headCache
      ensures headCache == if tail - old(headCache) >= capacity then head else old(headCache)
      ensures tail - h == capacity <==> |Contents()| == capacity
    {
      h := headCache;
      if tail - h >= capacity {
        h := head;
        headCache := h;
      }
    }

    /**
     * The consumer's view of `tail`: the cached copy, re-read from `tail`
     * when the ring looks empty through it.
     */
    method TailCacheForConsumer() returns (t: nat)
      requires Valid()
      modifies `tailCache
      ensures Valid() && t == tailCache
      ensures tailCache == if head == old(tailCache) then tail else old(tailCache)
      ensures head == t <==> Contents() == []
    {
      t := tailCache;
      if head == t {
        t := tail;
        tailCache := t;
      }
    }

    /**
     * Producer side (`push` and `emplace`): fails and changes nothing when
     * the ring holds `capacity` elements, otherwise appends `v`.
     */
    method Push(v: T) returns (ok: bool)
      requires Valid()
      modifies this, buffer
      ensures Valid() && head == old(head)
      ensures tailCache == old(tailCache)
      ensures headCache == if old(tail) - old(headCache) >= capacity then old(head) else old(headCache)
      ensures ok <==> |old(Contents())| < capacity
      ensures ok ==> Contents() == old(Contents()) + [v] && tail == old(tail) + 1
      ensures !ok ==> Contents() == old(Contents()) && tail == old(tail)
    {
      var t := tail;
      var h := HeadCacheForProducer();
      if t - h == capacity {
        return false;
      }
      ghost var buf0 := buffer[..];
      var s := Slot(t);
      buffer[s] := v;
      tail := t + 1;
      assert buffer[..] == buf0[Mod(head + (t - head), capacity) := v];
      WindowPush(buf0, head, t - head, v);
      ok := true;
    }

    /**
     * Consumer side: fails and changes nothing on an empty ring, otherwise
     * moves the oldest element into `out`; on failure `out` keeps `prev`.
     */
    method Pop(prev: T) returns (ok: bool, out: T)
      requires Valid()
      modifies this
      ensures Valid() && tail == old(tail)
      ensures headCache == old(headCache)
      ensures tailCache == if old(head) == old(tailCache) then old(tail) else old(tailCache)
      ensures ok <==> old(Contents()) != []
      ensures ok ==> out == old(Contents())[0] && Contents() == old(Contents())[1..] && head == old(head) + 1
      ensures !ok ==> out == prev && Contents() == old(Contents()) && head == old(head)
    {
      out := prev;
      var h := head;
      var t := TailCacheForConsumer();
      if h == t {
        return false, out;
      }
      WindowPop(buffer[..], h, tail - h);
      var s := Slot(h);
      out := buffer[s];
      head := h + 1;
      ok := true;
    }

    /**
     * Consumer side, in bulk: moves up to `maxN` of the oldest elements into
     * `out[0..num)`, stopping at the consumer's view of `tail`. That view is
     * refreshed only when it shows an empty ring, so `num` is
     * `min(maxN, size)` then and may fall short of it otherwise; it is never
     * 0 while elements are queued and `maxN` is positive.
     */
    method TryPopN(out: array<T>, maxN: nat) returns (num: nat)
      requires Valid() && maxN <= out.Length && out != buffer
      modifies this, out
      ensures Valid() && tail == old(tail)
      ensures headCache == old(headCache)
      ensures tailCache == if old(head) == old(tailCache) then old(tail) else old(tailCache)
      ensures num == Min(maxN, (if old(head) == old(tailCache) then old(tail) else old(tailCache)) - old(head))
      ensures num <= |old(Contents())|
      ensures old(head) == old(tailCache) ==> num == Min(maxN, |old(Contents())|)
      ensures maxN > 0 && old(Contents()) != [] ==> num > 0
      ensures out[..num] == old(Contents())[..num] && out[num..] == old(out[num..])
      ensures Contents() == old(Contents())[num..] && head == old(head) + num
    {
      var t := TailCacheForConsumer();
      num := CopyOut(out, maxN, t);
      if num != 0 {
        Advance(num);
      }
    }

    /** The consumer's release of `k` slots: `head` moves `k` on, dropping the `k` oldest elements. */
    method Advance(k: nat)
      requires Valid() && head + k <= tailCache
      modifies `head
      ensures Valid() && head == old(head) + k
      ensures Contents() == old(Contents())[k..]
    {
      WindowDrop(buffer[..], head, tail - head, k);
      head := head + k;
    }

    /** The copying loop of `TryPopN`: the oldest elements up to index `t`, at most `maxN` of them. */
    method CopyOut(out: array<T>, maxN: nat, t: nat) returns (num: nat)
      requires Valid() && head <= t <= tail && maxN <= out.Length && out != buffer
      modifies out
      ensures num == Min(maxN, t - head)
      ensures out[..num] == Contents()[..num] && out[num..] == old(out[num..])
    {
      ghost var items := Contents();
      WindowDrop(buffer[..], head, tail - head, t - head);
      var h := head;
      num := 0;
      while num < maxN && h != t
        invariant head <= h <= t && num == h - head && num <= maxN
        invariant forall k :: 0 <= k < num ==> out[k] == items[k]
        invariant forall k :: num <= k < out.Length ==> out[k] == old(out[k])
      {
        var s := Slot(h);
        out[num] := buffer[s];
        num := num + 1;
        h := h + 1;
      }
      assert out[..num] == items[..num];
      assert out[num..] == old(out[num..]);
    }

    /**
     * The element count as the source computes it, `(tail + capacity - head)
     * & mask`: the count modulo the capacity, so a full ring reports 0.
     */
    function ApproxSize(): (r: nat)
      reads this, buffer
      requires Valid()
      ensures r == |Contents()| % capacity
      ensures |Contents()| < capacity ==> r == |Contents()|
      ensures |Contents()| == capacity ==> r == 0
    {
      var n := tail - head;
      assert |Contents()| == n;
      AndMaskPow2(n + capacity, capacity);
      assert Mod(n + capacity, capacity) == Mod(n, capacity);
      ModIsRemainder(n, capacity);
      AndMask(tail + capacity - head, mask)
    }
  }

  /**
   * try_pop_n stops at the consumer's cached tail, so it can return fewer
   * elements than are queued: a pop that refreshes the cache to 2, then one
   * more push, leave two elements queued, yet a request for two returns
   * only the one element below the cached tail.
   */
  method TryPopNBehindCache() returns (queued: nat, num: nat)
    ensures queued == 2 && num == 1
  {
    PowerOfTwoTest(4);
    var ring := new SpscRing<int>(4);
    var ok := ring.Push(1);
    ok := ring.Push(2);
    var popped, v := ring.Pop(0);
    assert ring.head == 1 && ring.tail == 2 && ring.tailCache == 2;
    ok := ring.Push(3);
    queued := ring.tail - ring.head;
    var out := new int[2];
    num := ring.TryPopN(out, 2);
  }
}

/**
 * heap_hunt_t (mound/heap_hunt.hpp), the parts that are not the per-slot
 * locking protocol: the bit-reversed slot counter and the two swaps.
 *
 * `counter` counts the slots handed out plus one, and `reverse` is the
 * slot the next add fills. Within a level of the tree, the slots are handed
 * out in bit-reversed order: with highbit = 2^L the largest power of two
 * not above counter, reverse is highbit plus the low L bits of
 * counter - highbit read backwards. This keeps consecutive adds in
 * different subtrees.
 */
module HuntHeap {
  import opened Powers
  import opened MoundCommon
  import opened MoundTree

  /** The largest power of two not above n (0 for 0): the `highbit` of counter n. */
  function HighBit(n: nat): (h: nat)
    ensures h <= n
  {
    if n <= 1 then n else 2 * HighBit(n / 2)
  }

  /** The level of n >= 1, floor(log2 n): n lies in [2^Log(n), 2^(Log(n)+1)) (LevelBounds). */
  function Log(n: nat): nat
    requires n >= 1
  {
    if n == 1 then 0 else 1 + Log(n / 2)
  }

  /** The low k bits of x read backwards: a number of k bits. */
  function Rev(k: nat, x: nat): (r: nat)
    ensures r < Pow2(k)
  {
    if k == 0 then 0 else (if x % 2 == 1 then Pow2(k - 1) else 0) + Rev(k - 1, x / 2)
  }

  /** The slot that counter n names: `reverse` when counter is n, a slot on the level of n. */
  function Reversed(n: nat): (r: nat)
    ensures n >= 1 ==> HighBit(n) <= r < 2 * HighBit(n)
  {
    if n == 0 then 0 else LevelBounds(n); HighBit(n) + Rev(Log(n), n - HighBit(n))
  }

  /**
   * The loop of bit_reversed_increment on the k bits below highbit, the
   * top one first: a set bit is cleared and the carry moves to the next
   * lower bit, a clear bit is set and the carry stops. All k bits set
   * carry out and leave 0.
   */
  function RInc(k: nat, r: int): (t: int)
    ensures 0 <= r < Pow2(k) ==> 0 <= t < Pow2(k) && (t == 0 <==> r == Pow2(k) - 1)
  {
    if k == 0 then 0 else if r >= Pow2(k - 1) then RInc(k - 1, r - Pow2(k - 1)) else r + Pow2(k - 1)
  }

  /**
   * The loop of bit_reversed_decrement on the k bits below highbit, the
   * top one first: a clear bit is set and the borrow moves on, a set bit is
   * cleared and the borrow stops.
   */
  function RDec(k: nat, r: int): (t: int)
    ensures 0 <= r < Pow2(k) ==> 0 <= t < Pow2(k) && (t == Pow2(k) - 1 <==> r == 0)
  {
    if k == 0 then 0 else if r >= Pow2(k - 1) then r - Pow2(k - 1) else Pow2(k - 1) + RDec(k - 1, r)
  }

  /** x & y on natural numbers, bit by bit from the lowest. */
  function And(x: nat, y: nat): nat
  {
    if x == 0 || y == 0 then 0 else 2 * And(x / 2, y / 2) + (if x % 2 == 1 && y % 2 == 1 then 1 else 0)
  }

  /** x ^ y on natural numbers, bit by bit from the lowest. */
  function Xor(x: nat, y: nat): nat
  {
    if x == 0 then y else if y == 0 then x else 2 * Xor(x / 2, y / 2) + (if x % 2 != y % 2 then 1 else 0)
  }

  lemma {:induction false} ShrZero(j: nat)
    ensures Shr(0, j) == 0
    decreases j
  {
    if j > 0 {
      ShrZero(j - 1);
    }
  }

  /** x & (1 << j) is nonzero exactly when bit j of x is set. */
  lemma {:induction false} AndPow(x: nat, j: nat)
    ensures And(x, Pow2(j)) != 0 <==> Shr(x, j) % 2 == 1
    decreases j
  {
    if j > 0 {
      ShrZero(j);
      AndPow(x / 2, j - 1);
    }
  }

  /** x ^ (1 << j) clears bit j of x when it is set and sets it otherwise. */
  lemma {:induction false} XorPow(x: nat, j: nat)
    ensures Xor(x, Pow2(j)) == if Shr(x, j) % 2 == 1 then x - Pow2(j) else x + Pow2(j)
    decreases j
  {
    ShrZero(j);
    if j > 0 && x > 0 {
      XorPow(x / 2, j - 1);
    }
  }

  /** h is a multiple of 2^k. */
  ghost predicate Multiple(h: int, k: nat)
    decreases k
  {
    k == 0 || (h % 2 == 0 && Multiple(h / 2, k - 1))
  }

  /** 2^m - 2^k, for k <= m, is a multiple of 2^k. */
  lemma {:induction false} MultipleDiff(m: nat, k: nat)
    requires k <= m
    ensures Multiple(Pow2(m) - Pow2(k), k)
    decreases k
  {
    if k > 0 {
      assert (Pow2(m) - Pow2(k)) / 2 == Pow2(m - 1) - Pow2(k - 1);
      MultipleDiff(m - 1, k - 1);
    }
  }

  /** 2^m, for k <= m, is a multiple of 2^k. */
  lemma {:induction false} MultiplePow(m: nat, k: nat)
    requires k <= m
    ensures Multiple(Pow2(m), k)
    decreases k
  {
    if k > 0 {
      assert Pow2(m) / 2 == Pow2(m - 1);
      MultiplePow(m - 1, k - 1);
    }
  }

  /** Above a multiple h of 2^k, bit k-1 of h + r, for r < 2^k, is bit k-1 of r. */
  lemma {:induction false} BitBelow(h: int, k: nat, r: nat)
    requires h >= 0 && k >= 1 && Multiple(h, k) && r < Pow2(k)
    ensures Shr(h + r, k - 1) % 2 == 1 <==> r >= Pow2(k - 1)
    decreases k
  {
    if k > 1 {
      assert (h + r) / 2 == h / 2 + r / 2;
      BitBelow(h / 2, k - 1, r / 2);
    }
  }

  /** Reading backwards loses nothing: different numbers of k bits have different reversals. */
  lemma {:induction false} RevInjective(k: nat, x: nat, y: nat)
    requires x < Pow2(k) && y < Pow2(k) && Rev(k, x) == Rev(k, y)
    ensures x == y
    decreases k
  {
    if k > 0 {
      assert x % 2 == y % 2;
      RevInjective(k - 1, x / 2, y / 2);
    }
  }

  lemma {:induction false} RevZero(k: nat)
    ensures Rev(k, 0) == 0
    decreases k
  {
    if k > 0 {
      RevZero(k - 1);
    }
  }

  /** k set bits read backwards are k set bits. */
  lemma {:induction false} RevOnes(k: nat)
    ensures Rev(k, Pow2(k) - 1) == Pow2(k) - 1
    decreases k
  {
    if k > 0 {
      assert (Pow2(k) - 1) / 2 == Pow2(k - 1) - 1;
      RevOnes(k - 1);
    }
  }

  /** Adding one to x is the reversed increment on its reversal, short of a carry out of the k bits. */
  lemma {:induction false} RevSucc(k: nat, x: nat)
    requires x + 1 < Pow2(k)
    ensures Rev(k, x + 1) == RInc(k, Rev(k, x))
    decreases k
  {
    if x % 2 == 1 {
      assert (x + 1) / 2 == x / 2 + 1 && (x + 1) % 2 == 0;
      RevSucc(k - 1, x / 2);
    } else {
      assert (x + 1) / 2 == x / 2 && (x + 1) % 2 == 1;
    }
  }

  /** Taking one from x >= 1 is the reversed decrement on its reversal. */
  lemma {:induction false} RevPred(k: nat, x: nat)
    requires 1 <= x < Pow2(k)
    ensures Rev(k, x - 1) == RDec(k, Rev(k, x))
    decreases k
  {
    if x % 2 == 1 {
      assert (x - 1) / 2 == x / 2 && (x - 1) % 2 == 0;
    } else {
      assert (x - 1) / 2 == x / 2 - 1 && (x - 1) % 2 == 1;
      RevPred(k - 1, x / 2);
    }
  }

  /** Top bits that are all set carry on: the increment of L bits is the increment of the k bits below them. */
  lemma {:induction false} RIncTop(l: nat, k: nat, r: nat)
    requires k <= l && r < Pow2(k)
    ensures RInc(l, Pow2(l) - Pow2(k) + r) == RInc(k, r)
    decreases l
  {
    if k < l {
      Pow2Le(k, l - 1);
      RIncTop(l - 1, k, r);
    }
  }

  /** Top bits that are all clear become set: the decrement of L bits sets them and decrements the k bits below. */
  lemma {:induction false} RDecTop(l: nat, k: nat, r: nat)
    requires k <= l && r < Pow2(k)
    ensures RDec(l, r) == Pow2(l) - Pow2(k) + RDec(k, r)
    decreases l
  {
    if k < l {
      Pow2Le(k, l - 1);
      RDecTop(l - 1, k, r);
    }
  }

  /** The level of n is L exactly when n lies in [2^L, 2^(L+1)); highbit is then 2^L. */
  lemma {:induction false} LevelOf(n: nat, l: nat)
    requires Pow2(l) <= n < 2 * Pow2(l)
    ensures Log(n) == l && HighBit(n) == Pow2(l)
    decreases l
  {
    if l > 0 {
      LevelOf(n / 2, l - 1);
    }
  }

  /** Every n >= 1 lies in the level of Log(n). */
  lemma {:induction false} LevelBounds(n: nat)
    requires n >= 1
    ensures HighBit(n) == Pow2(Log(n)) && HighBit(n) <= n < 2 * HighBit(n)
    decreases n
  {
    if n > 1 {
      LevelBounds(n / 2);
    }
  }

  /**
   * Above a multiple m of 2^k, flipping bit k-1 of m + r, for r < 2^k,
   * with x ^ (1 << (k-1)) clears it when r has it set and sets it
   * otherwise, and the bit test & (1 << (k-1)) afterwards sees the new bit.
   */
  lemma BitFlip(m: nat, k: nat, r: nat)
    requires 1 <= k && Multiple(m, k) && r < Pow2(k)
    ensures var x' := Xor(m + r, Pow2(k - 1));
            && (And(x', Pow2(k - 1)) != 0 <==> r < Pow2(k - 1))
            && x' == if r < Pow2(k - 1) then m + r + Pow2(k - 1) else m + r - Pow2(k - 1)
  {
    var t := Pow2(k - 1);
    assert Pow2(k) == 2 * t;
    BitBelow(m, k, r);
    XorPow(m + r, k - 1);
    var x' := Xor(m + r, t);
    if r >= t {
      assert x' == m + (r - t);
      BitBelow(m, k, r - t);
      AndPow(x', k - 1);
    } else {
      assert x' == m + (r + t);
      BitBelow(m, k, r + t);
      AndPow(x', k - 1);
    }
  }

  /**
   * One round of the loops of bit_reversed_increment and
   * bit_reversed_decrement: reverse ^= bit, then the test (reverse & bit).
   * With reverse = m + r above a multiple m of 2^k and bit = 2^(k-1), the
   * round flips bit k-1 of r and the test sees the new bit.
   */
  method FlipBit(rev: nat, bit: nat, ghost m: nat, ghost k: nat, ghost r: nat) returns (rev': nat, isSet: bool)
    requires 1 <= k && bit == Pow2(k - 1) && Multiple(m, k) && r < Pow2(k) && rev == m + r
    ensures rev' == if r < bit then rev + bit else rev - bit
    ensures isSet <==> r < bit
  {
    BitFlip(m, k, r);
    rev' := Xor(rev, bit);
    isSet := And(rev', bit) != 0;
  }

  /**
   * The bits of reverse below highbit = 2^L that are above bit k-1, all
   * set (in the increment) or all clear (in the decrement), leave a
   * multiple of 2^k; the next round tests bit k-2.
   */
  lemma IncStep(l: nat, k: nat)
    requires 1 <= k <= l
    ensures Multiple(Pow2(l), k)
    ensures Pow2(k) == 2 * Pow2(k - 1) && Pow2(k - 1) / 2 == if k == 1 then 0 else Pow2(k - 2)
  {
    MultiplePow(l, k);
  }

  lemma DecStep(l: nat, k: nat)
    requires 1 <= k <= l
    ensures Pow2(k) <= Pow2(l) && Multiple(Pow2(l) + Pow2(l) - Pow2(k), k)
    ensures Pow2(k) == 2 * Pow2(k - 1) && Pow2(k - 1) / 2 == if k == 1 then 0 else Pow2(k - 2)
  {
    Pow2Le(k, l);
    MultipleDiff(l + 1, k);
  }

  /** The counter state: reverse is the slot counter n names and highbit its level. */
  ghost predicate Tracks(n: int, rev: int, hb: int)
  {
    n >= 0 && rev == Reversed(n) && hb == HighBit(n)
  }

  /** The counter state at n >= 1: highbit is 2^Log(n), and reverse and n lie in [highbit, 2*highbit). */
  lemma StateAt(n: nat, rev: int, hb: int)
    requires n >= 1 && Tracks(n, rev, hb)
    ensures hb == Pow2(Log(n)) && hb <= n < 2 * hb && hb <= rev < 2 * hb
  {
    LevelBounds(n);
  }

  /** The low bits x of a counter whose reversal has the bits above bit k-1 set and bit k-1 clear: x + 1 has those bits clear and bit k-1 set. */
  lemma RevIncWithin(l: nat, x: nat, k: nat, rest: nat)
    requires 1 <= k <= l && x < Pow2(l) && rest < Pow2(k - 1)
    requires Rev(l, x) == Pow2(l) - Pow2(k) + rest
    ensures x + 1 < Pow2(l) && Rev(l, x + 1) == rest + Pow2(k - 1)
  {
    RevOnes(l);
    assert x + 1 < Pow2(l);
    RevSucc(l, x);
    RIncTop(l, k, rest);
  }

  /** Low bits whose reversal is all ones are all ones. */
  lemma RevIncCarry(l: nat, x: nat)
    requires x < Pow2(l) && Rev(l, x) == Pow2(l) - 1
    ensures x == Pow2(l) - 1
  {
    RevOnes(l);
    RevInjective(l, x, Pow2(l) - 1);
  }

  /** The low bits x of a counter whose reversal has the bits above bit k-1 clear and bit k-1 set: x - 1 has those bits set and bit k-1 clear. */
  lemma RevDecWithin(l: nat, x: nat, k: nat, r0: nat)
    requires 1 <= k <= l && x < Pow2(l) && Pow2(k - 1) <= r0 < Pow2(k)
    requires Rev(l, x) == r0
    ensures x >= 1 && Rev(l, x - 1) == Pow2(l) - Pow2(k) + r0 - Pow2(k - 1)
  {
    RevZero(l);
    RevPred(l, x);
    RDecTop(l, k, r0);
  }

  /** Low bits whose reversal is zero are zero. */
  lemma RevDecBorrow(l: nat, x: nat)
    requires x < Pow2(l) && Rev(l, x) == 0
    ensures x == 0
  {
    RevZero(l);
    RevInjective(l, x, 0);
  }

  /**
   * The increment that stops at bit 2^(k-1): the bits above it are set in
   * Reversed(n), so n + 1 stays in n's level and its slot has them clear
   * and bit k-1 set.
   */
  lemma IncWithin(n: nat, rev: int, hb: int, k: nat, rest: nat, next: int)
    requires n >= 1 && Tracks(n, rev, hb) && 1 <= k <= Log(n) && rest < Pow2(k - 1)
    requires rev - hb == Pow2(Log(n)) - Pow2(k) + rest && next == hb + rest + Pow2(k - 1)
    ensures Tracks(n + 1, next, hb)
  {
    var l := Log(n);
    StateBits(n, rev, hb);
    RevIncWithin(l, n - hb, k, rest);
    StateOf(n + 1, l, hb, next);
  }

  /** The counter state at n >= 1 read apart: reverse is highbit plus the low Log(n) bits of n read backwards. */
  lemma StateBits(n: nat, rev: int, hb: int)
    requires n >= 1 && Tracks(n, rev, hb)
    ensures hb == Pow2(Log(n)) && hb <= n < 2 * hb && rev == hb + Rev(Log(n), n - hb)
  {
    LevelBounds(n);
  }

  /** The counter state put together: a counter m of level l, with highbit h, whose slot is h plus its low bits read backwards. */
  lemma StateOf(m: nat, l: nat, h: int, rev: int)
    requires h == Pow2(l) <= m < 2 * h && rev == h + Rev(l, m - h)
    ensures Tracks(m, rev, h)
  {
    LevelOf(m, l);
  }

  /** The increment that carries out of every bit: n is the last of its level and n + 1 starts the next. */
  lemma IncCarry(n: nat, rev: int, hb: int)
    requires n >= 1 && Tracks(n, rev, hb) && rev - hb == Pow2(Log(n)) - 1
    ensures Tracks(n + 1, 2 * hb, 2 * hb)
  {
    var l := Log(n);
    LevelBounds(n);
    RevIncCarry(l, n - HighBit(n));
    LevelStart(l + 1);
  }

  /**
   * The decrement that stops at bit 2^(k-1): the bits above it are clear
   * in Reversed(n), so n - 1 stays in n's level and its slot has them set
   * and bit k-1 clear.
   */
  lemma DecWithin(n: nat, rev: int, hb: int, k: nat, r0: nat, next: int)
    requires n >= 1 && Tracks(n, rev, hb) && 1 <= k <= Log(n) && Pow2(k - 1) <= r0 < Pow2(k)
    requires rev - hb == r0 && next == hb + Pow2(Log(n)) - Pow2(k) + r0 - Pow2(k - 1)
    ensures Tracks(n - 1, next, hb)
  {
    var l := Log(n);
    StateBits(n, rev, hb);
    RevDecWithin(l, n - hb, k, r0);
    StateOf(n - 1, l, hb, next);
  }

  /** The decrement that borrows past every bit: n starts its level and n - 1 is the last of the level before. */
  lemma DecBorrow(n: nat, rev: int, hb: int)
    requires n >= 1 && Tracks(n, rev, hb) && rev == hb
    ensures Tracks(n - 1, n - 1, hb / 2)
  {
    var l := Log(n);
    LevelBounds(n);
    RevDecBorrow(l, n - HighBit(n));
    if l >= 1 {
      LevelEnd(l);
    }
  }

  /** The first counter of level L names the first slot of the level. */
  lemma LevelStart(l: nat)
    requires l >= 1
    ensures Pow2(l) == 2 * Pow2(l - 1)
    ensures HighBit(Pow2(l)) == Pow2(l) && Reversed(Pow2(l)) == Pow2(l)
  {
    LevelOf(Pow2(l), l);
    RevZero(l);
  }

  /** The last counter of level L - 1 names the last slot of that level. */
  lemma LevelEnd(l: nat)
    requires l >= 1
    ensures Pow2(l) == 2 * Pow2(l - 1)
    ensures HighBit(Pow2(l) - 1) == Pow2(l - 1) && Reversed(Pow2(l) - 1) == Pow2(l) - 1
  {
    LevelOf(Pow2(l) - 1, l - 1);
    RevOnes(l - 1);
  }

  /** The first counter names slot 1, and it is the only one. */
  lemma SlotRange(n: nat)
    requires n >= 1
    ensures Reversed(n) == 1 <==> n == 1
  {
    LevelBounds(n);
    if n >= 2 {
      assert HighBit(n) >= 2;
    }
  }

  /** A counter on a lower level names a smaller slot. */
  lemma LevelBelow(m: nat, n: nat)
    requires m >= 1 && n >= 1 && Log(m) < Log(n)
    ensures Reversed(m) < Reversed(n)
  {
    var a := Log(m);
    LevelBounds(m);
    LevelBounds(n);
    Pow2Le(a + 1, Log(n));
    assert Pow2(a + 1) == 2 * Pow2(a);
  }

  /** Counters whose slots agree are on the same level. */
  lemma SameLevel(m: nat, n: nat)
    requires m >= 1 && n >= 1 && Reversed(m) == Reversed(n)
    ensures Log(m) == Log(n) && HighBit(m) == HighBit(n) == Pow2(Log(n))
    ensures HighBit(n) <= m < 2 * HighBit(n) && HighBit(n) <= n < 2 * HighBit(n)
  {
    if Log(m) < Log(n) {
      LevelBelow(m, n);
    } else if Log(n) < Log(m) {
      LevelBelow(n, m);
    }
    LevelBounds(m);
    LevelBounds(n);
  }

  /** Different counters name different slots: no slot is handed out twice. */
  lemma SlotInjective(m: nat, n: nat)
    requires Reversed(m) == Reversed(n)
    ensures m == n
  {
    if m >= 1 && n >= 1 {
      SameLevel(m, n);
      var h := HighBit(n);
      assert Reversed(m) == h + Rev(Log(n), m - h) && Reversed(n) == h + Rev(Log(n), n - h);
      RevInjective(Log(n), m - h, n - h);
    } else if m >= 1 {
      SlotRange(m);
    } else if n >= 1 {
      SlotRange(n);
    }
  }

  /** A data_item_t: the slot's lock word, tag and priority. */
  datatype Item = Item(lock: nat, tag: u32, priority: u32)

  /** data_item_tag_t EMPTY: the tag of a slot that holds nothing. */
  const EMPTY: u32 := 0

  /** swap_items(a, b) on the slot values s: tag and priority trade places, each lock stays. */
  function SwapItems(s: seq<Item>, a: int, b: int): (t: seq<Item>)
    requires 0 <= a < |s| && 0 <= b < |s|
    ensures |t| == |s|
  {
    s[a := s[a].(tag := s[b].tag, priority := s[b].priority)][b := s[b].(tag := s[a].tag, priority := s[a].priority)]
  }

  /**
   * swap_items exchanges the tag and priority of a and b, keeps every
   * lock and every other slot, and undoes itself.
   */
  lemma SwapItemsSpec(s: seq<Item>, a: int, b: int)
    requires 0 <= a < |s| && 0 <= b < |s|
    ensures var t := SwapItems(s, a, b);
            && t[a].tag == s[b].tag && t[a].priority == s[b].priority
            && t[b].tag == s[a].tag && t[b].priority == s[a].priority
            && (forall i :: 0 <= i < |s| ==> t[i].lock == s[i].lock)
            && (forall i :: 0 <= i < |s| && i != a && i != b ==> t[i] == s[i])
            && SwapItems(t, a, b) == s
  {
  }

  class Heap {
    var counter: int
    var reverse: int
    var highbit: int
    const items: array<Item>

    /** The counter state is what counter names: reverse its slot, highbit its level. */
    ghost predicate Valid()
      reads this
    {
      Tracks(counter, reverse, highbit)
    }

    /**
     * heap_hunt_t(): the counter state zeroed and incremented once, so
     * counter, reverse and highbit are 1 and the heap is empty; the
     * HEAP_MAX_SIZE + 1 slots are zeroed.
     */
    constructor ()
      ensures Valid() && counter == 1 && reverse == 1 && highbit == 1
      ensures items.Length == HEAP_MAX_SIZE + 1 && forall i :: 0 <= i < items.Length ==> items[i] == Item(0, EMPTY, 0)
    {
      counter, reverse, highbit := 0, 0, 0;
      items := new Item[HEAP_MAX_SIZE + 1](_ => Item(0, EMPTY, 0));
      new;
      var first := Increment();
    }

    /**
     * bit_reversed_increment(): counter goes up by one and reverse and
     * highbit follow it; the answer is the new slot.
     */
    method Increment() returns (r: int)
      requires Valid()
      modifies this
      ensures Valid() && counter == old(counter) + 1 && r == reverse
    {
      if counter == 0 {
        counter := 1;
        reverse, highbit := 1, 1;
        return reverse;
      }
      ghost var c0 := counter;
      ghost var l := Log(c0);
      StateAt(c0, reverse, highbit);
      ghost var r0, rev0, hb0 := reverse - highbit, reverse, highbit;
      counter := counter + 1;
      var rev, bit := reverse, highbit / 2;
      ghost var k := l;
      while bit != 0
        invariant 0 <= k <= l && bit == (if k == 0 then 0 else Pow2(k - 1))
        invariant highbit == hb0 == Pow2(l) && 0 <= rev - highbit < Pow2(k)
        invariant r0 == Pow2(l) - Pow2(k) + (rev - highbit)
        modifies {}
        decreases k
      {
        ghost var rest := rev - highbit;
        IncStep(l, k);
        var isSet;
        rev, isSet := FlipBit(rev, bit, highbit, k, rest);
        if isSet {
          IncWithin(c0, rev0, hb0, k, rest, rev);
          break;
        }
        bit := bit / 2;
        k := k - 1;
      }
      if bit == 0 {
        IncCarry(c0, rev0, hb0);
        highbit := highbit * 2;
        rev := highbit;
      }
      reverse := rev;
      r := reverse;
    }

    /**
     * bit_reversed_decrement(): counter goes down by one and reverse and
     * highbit follow it, back to the state the increment from counter - 1
     * left; the answer is the slot named by the new counter, which is the
     * last slot handed out.
     */
    method Decrement() returns (r: int)
      requires Valid() && counter >= 1
      modifies this
      ensures Valid() && counter == old(counter) - 1 && r == reverse
    {
      ghost var c0 := counter;
      ghost var l := Log(c0);
      StateAt(c0, reverse, highbit);
      ghost var r0, rev0, hb0 := reverse - highbit, reverse, highbit;
      counter := counter - 1;
      var rev, bit := reverse, highbit / 2;
      ghost var k := l;
      while bit != 0
        invariant 0 <= k <= l && bit == (if k == 0 then 0 else Pow2(k - 1))
        invariant highbit == hb0 == Pow2(l) && 0 <= r0 < Pow2(k) && Pow2(k) <= Pow2(l)
        invariant rev == highbit + Pow2(l) - Pow2(k) + r0
        modifies {}
        decreases k
      {
        DecStep(l, k);
        var isSet;
        rev, isSet := FlipBit(rev, bit, Pow2(l) + Pow2(l) - Pow2(k), k, r0);
        if !isSet {
          DecWithin(c0, rev0, hb0, k, r0, rev);
          break;
        }
        bit := bit / 2;
        k := k - 1;
      }
      if bit == 0 {
        DecBorrow(c0, rev0, hb0);
        rev := counter;
        highbit := highbit / 2;
      }
      reverse := rev;
      r := reverse;
    }

    /** remove's empty test: the heap is empty, counter 1, exactly when reverse is 1. */
    method IsEmpty() returns (empty: bool)
      requires Valid() && counter >= 1
      ensures empty <==> counter == 1
    {
      SlotRange(counter);
      empty := reverse == 1;
    }

    /** swap_items(a, b): the two slots trade tag and priority and keep their locks. */
    method SwapSlots(a: int, b: int)
      requires 0 <= a < items.Length && 0 <= b < items.Length
      modifies items
      ensures items[..] == SwapItems(old(items[..]), a, b)
    {
      var tag, priority := items[a].tag, items[a].priority;
      items[a] := items[a].(tag := items[b].tag, priority := items[b].priority);
      items[b] := items[b].(tag := tag, priority := priority);
    }
  }

  /** swap(a, b): the two values trade places. */
  method Swap(a: u32, b: u32) returns (a': u32, b': u32)
    ensures a' == b && b' == a
  {
    var temp := a;
    a' := b;
    b' := temp;
  }
}

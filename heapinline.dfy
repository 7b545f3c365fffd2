/**
 * heap_inline_t (mound/heap_inline.hpp): a binary min-heap of 32-bit
 * values stored in place in one array, rooted at index 1. `counter` is one
 * past the last occupied slot, so the heap is empty when it is 1. The
 * lock around each operation is left out; one thread runs them.
 */
module HeapInline {
  import opened MoundCommon
  import opened BinaryHeap

  class Heap {
    const arr: array<u32>
    var counter: int

    ghost predicate Valid()
      reads this, arr
    {
      arr.Length == HEAP_MAX_SIZE && 1 <= counter <= arr.Length && HeapOrdered(arr[..], counter)
    }

    /** The values held: slots 1 .. counter-1. */
    ghost function Contents(): multiset<int>
      reads this, arr
      requires 1 <= counter <= arr.Length
    {
      multiset(arr[1..counter])
    }

    /** heap_inline_t(): an array of HEAP_MAX_SIZE slots and counter 1, the empty heap. */
    constructor ()
      ensures Valid() && fresh(arr) && counter == 1 && Contents() == multiset{}
    {
      arr := new u32[HEAP_MAX_SIZE];
      counter := 1;
    }

    /**
     * add(n): store n in slot counter, swap it with its parent while it is
     * strictly smaller, and count it. The array has no slot past
     * HEAP_MAX_SIZE - 1, so the heap must not be full.
     */
    method Add(n: u32)
      requires Valid() && counter < HEAP_MAX_SIZE
      modifies this, arr
      ensures Valid() && counter == old(counter) + 1
      ensures Contents() == old(Contents()) + multiset{n}
    {
      Insert(counter, n);
      counter := counter + 1;
    }

    /** add on the heap in slots 1 .. top-1: n goes in slot top and sifts up. */
    method Insert(top: int, n: u32)
      requires 1 <= top < arr.Length && HeapOrdered(arr[..], top)
      modifies arr
      ensures HeapOrdered(arr[..], top + 1)
      ensures multiset(arr[1..top + 1]) == old(multiset(arr[1..top])) + multiset{n as int}
    {
      ghost var s := arr[..];
      UpStart(s, top, n);
      Store(top, n);
      SiftUp(top, top + 1);
    }

    /**
     * remove(): UINT_MAX on an empty heap; otherwise the root, whose slot
     * takes the last value before the heap shrinks by one and the sift-down
     * restores the order.
     */
    method Remove() returns (r: u32)
      requires Valid()
      modifies this, arr
      ensures Valid()
      ensures old(counter) == 1 ==> r == UINT_MAX && counter == 1 && Contents() == old(Contents())
      ensures old(counter) > 1 ==> && IsMin(r, old(Contents())) && counter == old(counter) - 1
                                   && Contents() == old(Contents()) - multiset{r}
    {
      if counter == 1 {
        return UINT_MAX;
      }
      r := Extract(counter);
      counter := counter - 1;
    }

    /**
     * The removal loop of moundtest.cpp's sequential check: count removes
     * in a row. While values remain each answer is a smallest one (so the
     * answers are those of any other queue holding the same values, by
     * AnsweredUnique); past the last value every answer is UINT_MAX.
     */
    method Drain(count: nat) returns (xs: seq<u32>)
      requires Valid()
      modifies this, arr
      ensures Valid() && |xs| == count
      ensures count < old(counter) ==> counter == old(counter) - count && Answered(xs, old(Contents()), Contents())
      ensures count >= old(counter) ==> && counter == 1 && Answered(xs[..old(counter) - 1], old(Contents()), multiset{})
                                         && forall k :: old(counter) - 1 <= k < count ==> xs[k] == UINT_MAX
    {
      ghost var c0, m0 := counter, Contents();
      xs := [];
      var i := 0;
      while i < count
        invariant 0 <= i <= count && |xs| == i && Valid()
        invariant Drained(xs, c0, m0, Contents(), counter)
      {
        ghost var before, cb := Contents(), counter;
        var r := Remove();
        DrainStep(xs, r, c0, m0, before, Contents(), cb, counter);
        xs := xs + [r];
        i := i + 1;
      }
    }

    /** remove on the non-empty heap in slots 1 .. top-1: the root, with the last value sifted down from the root. */
    method Extract(top: int) returns (r: u32)
      requires 2 <= top <= arr.Length && HeapOrdered(arr[..], top)
      modifies arr
      ensures HeapOrdered(arr[..], top - 1)
      ensures IsMin(r, old(multiset(arr[1..top])))
      ensures multiset(arr[1..top - 1]) == old(multiset(arr[1..top])) - multiset{r as int}
    {
      ghost var s: seq<int> := arr[..];
      r := arr[1];
      RootIsMinOfBag(s, top);
      DownStart(s, top);
      Store(1, arr[top - 1]);
      SiftDown(top - 1);
    }

    /** The loop of add: the value in slot c0 swaps with its parent while strictly smaller. */
    method SiftUp(c0: int, top: int)
      requires 1 <= c0 < top <= arr.Length && UpInv(arr[..], top, c0)
      modifies arr
      ensures HeapOrdered(arr[..], top)
      ensures multiset(arr[1..top]) == old(multiset(arr[1..top]))
    {
      ghost var g: seq<int> := arr[..];
      ghost var m := multiset(g[1..top]);
      var c := c0;
      while c != 1
        invariant 1 <= c < top
        invariant arr[..] == g && |g| == arr.Length
        invariant UpInv(g, top, c)
        invariant multiset(g[1..top]) == m
        decreases c
      {
        var p := Parent(c);
        if arr[c] >= arr[p] {
          break;
        }
        UpStep(g, top, c);
        SwapBag(g, 1, top, c, p);
        g := Swap(g, c, p);
        Exchange(c, p);
        c := p;
      }
      UpDone(g, top, c);
    }

    /**
     * The loop of remove on the heap s[1..top): the value in slot p trades
     * places with its smaller child while it is larger; each iteration is
     * one SiftDownRound.
     */
    method SiftDown(top: int)
      requires 1 <= top <= arr.Length && DownInv(arr[..], top, 1)
      modifies arr
      ensures HeapOrdered(arr[..], top)
      ensures multiset(arr[1..top]) == old(multiset(arr[1..top]))
    {
      ghost var m := multiset(arr[1..top]);
      var p := 1;
      while true
        invariant 1 <= p && DownInv(arr[..], top, p)
        invariant multiset(arr[1..top]) == m
        decreases top - p
      {
        var done, w := SiftDownRound(p, top);
        if done {
          break;
        }
        p := w;
      }
    }

    /**
     * One iteration of remove's loop at slot p: with no child in the heap,
     * or no child smaller than p, the order is back (done); otherwise p
     * trades places with its smaller child w (the right one on a tie), and
     * a slot with only a left child is compared with it once.
     */
    method SiftDownRound(p: int, top: int) returns (done: bool, w: int)
      requires 1 <= p && 1 <= top <= arr.Length && DownInv(arr[..], top, p)
      modifies arr
      ensures multiset(arr[1..top]) == old(multiset(arr[1..top]))
      ensures done ==> HeapOrdered(arr[..], top)
      ensures !done ==> p < w < top && DownInv(arr[..], top, w)
    {
      ghost var g: seq<int> := arr[..];
      var l, r := p * 2, p * 2 + 1;
      if l >= top {
        DownDone(g, top, p);
        return true, p;
      }
      if r >= top {
        DownRound(g, top, p, l);
        if arr[p] > arr[l] {
          Exchange(p, l);
        }
        return true, l;
      }
      assert g[p] == arr[p] && g[l] == arr[l] && g[r] == arr[r];
      w := if arr[l] < arr[r] then l else r;
      DownRound(g, top, p, w);
      if arr[p] <= arr[w] {
        return true, w;
      }
      Exchange(p, w);
      done := false;
    }

    /** Put value x in slot i. */
    method Store(i: int, x: u32)
      requires 0 <= i < arr.Length
      modifies arr
      ensures arr[..] == old(arr[..])[i := x]
    {
      arr[i] := x;
    }

    /** Exchange the values in slots i and j. */
    method Exchange(i: int, j: int)
      requires 0 <= i < arr.Length && 0 <= j < arr.Length
      modifies arr
      ensures arr[..] == Swap(old(arr[..]), i, j)
    {
      arr[i], arr[j] := arr[j], arr[i];
    }
  }

  /**
   * What Drain has answered after |xs| removes from a heap that held m0 in
   * c0 - 1 values, and now holds m with counter c.
   */
  ghost predicate Drained(xs: seq<int>, c0: int, m0: multiset<int>, m: multiset<int>, c: int)
  {
    && c0 >= 1
    && (|xs| < c0 ==> c == c0 - |xs| && Answered(xs, m0, m))
    && (|xs| >= c0 ==> && c == 1 && Answered(xs[..c0 - 1], m0, multiset{})
                       && forall k :: c0 - 1 <= k < |xs| ==> xs[k] == UINT_MAX)
  }

  /** One iteration of Drain: one more remove, answering as Remove promises, keeps Drained. */
  lemma DrainStep(xs: seq<int>, r: int, c0: int, m0: multiset<int>, before: multiset<int>, after: multiset<int>, cb: int, ca: int)
    requires Drained(xs, c0, m0, before, cb)
    requires cb == 1 ==> before == multiset{} && r == UINT_MAX && ca == 1
    requires cb > 1 ==> IsMin(r, before) && ca == cb - 1 && after == before - multiset{r}
    ensures Drained(xs + [r], c0, m0, after, ca)
  {
    var ys := xs + [r];
    if |xs| < c0 - 1 {
      AnsweredSnoc(xs, m0, before, r);
    } else if |xs| == c0 - 1 {
      assert ys[..c0 - 1] == xs;
    } else {
      assert ys[..c0 - 1] == xs[..c0 - 1];
    }
  }
}

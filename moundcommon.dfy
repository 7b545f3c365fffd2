/**
 * What the priority queues of mound/ share (mound/common.hpp): 32-bit
 * unsigned priorities with UINT_MAX as the "empty" answer, the list cell
 * mound_list_t, and the order in which any correct priority queue hands
 * its values back.
 */
module MoundCommon {

  /** uint32_t. */
  type u32 = x: int | 0 <= x < 0x1_0000_0000

  /** UINT_MAX: what every remove answers on an empty queue. */
  const UINT_MAX: u32 := 0xFFFF_FFFF

  /** HEAP_MAX_SIZE: the number of slots of an array heap. */
  const HEAP_MAX_SIZE := 128 * 1024 * 1024

  /**
   * mound_list_t: a list cell. The queues modelled here give a cell its
   * data when they take it from the pool and never write it again, so
   * `data` is fixed at allocation; `next` is relinked.
   */
  class ListCell {
    const data: u32
    var next: ListCell?

    constructor (d: u32, n: ListCell?)
      ensures data == d && next == n
    {
      data := d;
      next := n;
    }
  }

  /** Non-decreasing order. */
  predicate Sorted(s: seq<int>)
  {
    forall i, j :: 0 <= i < j < |s| ==> s[i] <= s[j]
  }

  /** x is a smallest element of m. */
  predicate IsMin(x: int, m: multiset<int>)
  {
    x in m && forall y :: y in m ==> x <= y
  }

  /** The first value of a sorted non-empty sequence is a smallest one. */
  lemma SortedHeadIsMin(d: seq<int>)
    requires Sorted(d) && |d| > 0
    ensures IsMin(d[0], multiset(d))
  {
    forall y | y in multiset(d)
      ensures d[0] <= y
    {
      var i :| 0 <= i < |d| && d[i] == y;
    }
  }

  /**
   * xs is what a priority queue holding m0 answers to |xs| successive
   * removes, after which it holds m: each answer is a smallest remaining
   * value, and it leaves the queue.
   */
  predicate Answered(xs: seq<int>, m0: multiset<int>, m: multiset<int>)
    decreases |xs|
  {
    if |xs| == 0 then m == m0
    else IsMin(xs[0], m0) && Answered(xs[1..], m0 - multiset{xs[0]}, m)
  }

  /** One more remove answering a smallest value of what is left extends the answers. */
  lemma {:induction false} AnsweredSnoc(xs: seq<int>, m0: multiset<int>, m: multiset<int>, r: int)
    requires Answered(xs, m0, m) && IsMin(r, m)
    ensures Answered(xs + [r], m0, m - multiset{r})
    decreases |xs|
  {
    if |xs| > 0 {
      AnsweredSnoc(xs[1..], m0 - multiset{xs[0]}, m, r);
      assert (xs + [r])[1..] == xs[1..] + [r];
    }
  }

  /** The answers and what is left are together what the queue held. */
  lemma {:induction false} AnsweredBag(xs: seq<int>, m0: multiset<int>, m: multiset<int>)
    requires Answered(xs, m0, m)
    ensures multiset(xs) + m == m0
    decreases |xs|
  {
    if |xs| > 0 {
      AnsweredBag(xs[1..], m0 - multiset{xs[0]}, m);
      assert xs == [xs[0]] + xs[1..];
    }
  }

  /** The answers come in non-decreasing order, and none is larger than what is left. */
  lemma {:induction false} AnsweredSorted(xs: seq<int>, m0: multiset<int>, m: multiset<int>)
    requires Answered(xs, m0, m)
    ensures Sorted(xs)
    ensures forall i, y :: 0 <= i < |xs| && y in m ==> xs[i] <= y
    decreases |xs|
  {
    if |xs| > 0 {
      var rest := xs[1..];
      AnsweredSorted(rest, m0 - multiset{xs[0]}, m);
      AnsweredBag(rest, m0 - multiset{xs[0]}, m);
      forall i, j | 0 <= i < j < |xs|
        ensures xs[i] <= xs[j]
      {
        assert xs[j] == rest[j - 1];
        if i == 0 {
          assert rest[j - 1] in multiset(rest);
        } else {
          assert xs[i] == rest[i - 1];
        }
      }
      forall i, y | 0 <= i < |xs| && y in m
        ensures xs[i] <= y
      {
        if i > 0 {
          assert xs[i] == rest[i - 1];
        }
      }
    }
  }

  /**
   * Two queues holding the same values answer the same number of removes
   * identically and are left holding the same values: the answers depend
   * on the contents alone, whatever the queue's layout (the sequential
   * test of moundtest.cpp compares every queue with std::priority_queue
   * this way).
   */
  lemma {:induction false} AnsweredUnique(xs: seq<int>, ys: seq<int>, m0: multiset<int>, m: multiset<int>, n: multiset<int>)
    requires Answered(xs, m0, m) && Answered(ys, m0, n) && |xs| == |ys|
    ensures xs == ys && m == n
    decreases |xs|
  {
    if |xs| > 0 {
      assert xs[0] <= ys[0] && ys[0] <= xs[0];
      AnsweredUnique(xs[1..], ys[1..], m0 - multiset{xs[0]}, m, n);
    }
  }
}

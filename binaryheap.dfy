/**
 * The 1-based array heap of heap_inline.hpp and heap_seq.hpp, on values:
 * the slots s[1..n) hold the queue (n is the source's `counter`), the
 * parent of slot i is slot i/2, and the heap order says no slot holds less
 * than its parent. The two sift loops each keep one of the predicates
 * below, which is the heap order with one slot exempted; each iteration
 * is one application of UpStep or DownStep.
 */
module BinaryHeap {

  /** The parent slot of slot i: below i, and i is one of its two children 2p and 2p+1. */
  function Parent(i: int): (p: int)
    ensures i >= 1 ==> 0 <= p < i && (i == 2 * p || i == 2 * p + 1)
  {
    i / 2
  }

  /** Heap order on s[1..n): every slot's parent holds a value no larger. */
  ghost predicate HeapOrdered(s: seq<int>, n: int)
    requires 1 <= n <= |s|
  {
    forall i :: 2 <= i < n ==> s[Parent(i)] <= s[i]
  }

  /**
   * The sift-up invariant: heap order holds except between slot c and its
   * parent, and c's parent is no larger than c's children.
   */
  ghost predicate UpInv(s: seq<int>, n: int, c: int)
    requires 1 <= c < n <= |s|
  {
    && (forall i :: 2 <= i < n && i != c ==> s[Parent(i)] <= s[i])
    && (c >= 2 ==> forall k :: 2 <= k < n && Parent(k) == c ==> s[Parent(c)] <= s[k])
  }

  /**
   * The sift-down invariant: heap order holds except between slot p and its
   * children, and p's parent is no larger than p's children.
   */
  ghost predicate DownInv(s: seq<int>, n: int, p: int)
    requires 1 <= p && 1 <= n <= |s|
  {
    && (forall i :: 2 <= i < n && Parent(i) != p ==> s[Parent(i)] <= s[i])
    && (p >= 2 ==> forall k :: 2 <= k < n && Parent(k) == p ==> s[Parent(p)] <= s[k])
  }

  /** The values of slots i and j exchanged. */
  function Swap<T>(s: seq<T>, i: int, j: int): (r: seq<T>)
    requires 0 <= i < |s| && 0 <= j < |s|
    ensures |r| == |s| && r[i] == s[j] && r[j] == s[i]
    ensures forall k :: 0 <= k < |s| && k != i && k != j ==> r[k] == s[k]
  {
    s[i := s[j]][j := s[i]]
  }

  /** An exchange inside s[lo..hi) keeps the values of s[lo..hi). */
  lemma SwapBag(s: seq<int>, lo: int, hi: int, i: int, j: int)
    requires 0 <= lo <= i < hi <= |s| && lo <= j < hi
    ensures multiset(Swap(s, i, j)[lo..hi]) == multiset(s[lo..hi])
  {
    var t := Swap(s, i, j);
    assert t[lo..hi] == s[lo..hi][i - lo := s[j]][j - lo := s[i]];
  }

  /** The smallest value of a heap sits at its root. */
  lemma {:induction false} RootIsMin(s: seq<int>, n: int, i: int)
    requires 1 <= n <= |s| && HeapOrdered(s, n) && 1 <= i < n
    ensures s[1] <= s[i]
    decreases i
  {
    if i >= 2 {
      RootIsMin(s, n, Parent(i));
    }
  }

  /** The root of a non-empty heap is a smallest value of s[1..n). */
  lemma RootIsMinOfBag(s: seq<int>, n: int)
    requires 2 <= n <= |s| && HeapOrdered(s, n)
    ensures s[1] in multiset(s[1..n]) && forall x :: x in multiset(s[1..n]) ==> s[1] <= x
  {
    forall x | x in multiset(s[1..n])
      ensures s[1] <= x
    {
      var i :| 1 <= i < n && s[i] == x by {
        assert x in s[1..n];
      }
      RootIsMin(s, n, i);
    }
  }

  /** add's first step: the new value in slot n of a heap on s[1..n) starts the sift-up at n. */
  lemma UpStart(s: seq<int>, n: int, v: int)
    requires 1 <= n < |s| && HeapOrdered(s, n)
    ensures UpInv(s[n := v], n + 1, n)
    ensures multiset(s[n := v][1..n + 1]) == multiset(s[1..n]) + multiset{v}
  {
    assert s[n := v][1..n + 1] == s[1..n] + [v];
  }

  /** One swap of the sift-up: slot c smaller than its parent trades places with it. */
  lemma UpStep(s: seq<int>, n: int, c: int)
    requires 2 <= c < n <= |s| && UpInv(s, n, c) && s[c] < s[Parent(c)]
    ensures UpInv(Swap(s, c, Parent(c)), n, Parent(c))
  {
    var p, t := Parent(c), Swap(s, c, Parent(c));
    forall i | 2 <= i < n && i != p
      ensures t[Parent(i)] <= t[i]
    {
      if i == c {
      } else if Parent(i) == c {
      } else if Parent(i) == p {
        assert s[p] <= s[i];
      } else {
        assert s[Parent(i)] <= s[i];
      }
    }
    if p >= 2 {
      forall k | 2 <= k < n && Parent(k) == p
        ensures t[Parent(p)] <= t[k]
      {
        assert s[Parent(p)] <= s[p];
        if k != c {
          assert s[p] <= s[k];
        }
      }
    }
  }

  /** The sift-up stops at the root or below a parent no larger: heap order is back. */
  lemma UpDone(s: seq<int>, n: int, c: int)
    requires 1 <= c < n <= |s| && UpInv(s, n, c) && (c == 1 || s[Parent(c)] <= s[c])
    ensures HeapOrdered(s, n)
  {
  }

  /**
   * remove's first step on a heap on s[1..n), n >= 2: the last value moves
   * to the root, the heap shrinks to s[1..n-1), and only the root is out
   * of place; the values are those of the old heap without its root.
   */
  lemma DownStart(s: seq<int>, n: int)
    requires 2 <= n <= |s| && HeapOrdered(s, n)
    ensures DownInv(s[1 := s[n - 1]], n - 1, 1)
    ensures multiset(s[1 := s[n - 1]][1..n - 1]) == multiset(s[1..n]) - multiset{s[1]}
  {
    var t := s[1 := s[n - 1]];
    if n == 2 {
      assert s[1..n] == [s[1]];
    } else {
      assert t[1..n - 1] == [s[n - 1]] + s[2..n - 1];
      assert s[1..n] == [s[1]] + s[2..n - 1] + [s[n - 1]];
    }
  }

  /** The children of slot p are slots 2p and 2p+1. */
  lemma ChildrenOf(p: int, k: int)
    requires 1 <= p
    ensures Parent(k) == p <==> k == 2 * p || k == 2 * p + 1
  {
  }

  /**
   * One swap of the sift-down: p trades places with the smaller of its
   * children w (the right one on a tie), which is smaller than p; with one
   * child only, w is that child.
   */
  lemma DownStep(s: seq<int>, n: int, p: int, w: int)
    requires 1 <= p && 2 * p < n <= |s| && DownInv(s, n, p)
    requires w == 2 * p || w == 2 * p + 1
    requires 2 * p + 1 < n ==> && s[w] <= s[2 * p] && s[w] <= s[2 * p + 1]
    requires 2 * p + 1 >= n ==> w == 2 * p
    requires s[w] < s[p]
    ensures DownInv(Swap(s, p, w), n, w)
    ensures multiset(Swap(s, p, w)[1..n]) == multiset(s[1..n])
  {
    var t := Swap(s, p, w);
    forall i | 2 <= i < n && Parent(i) != w
      ensures t[Parent(i)] <= t[i]
    {
      ChildrenOf(p, i);
      if i == w {
      } else if Parent(i) == p {
      } else if i == p {
        assert s[Parent(p)] <= s[w];
      } else {
        assert s[Parent(i)] <= s[i];
      }
    }
    forall k | 2 <= k < n && Parent(k) == w
      ensures t[Parent(w)] <= t[k]
    {
      assert s[w] <= s[k];
    }
    SwapBag(s, 1, n, p, w);
  }

  /**
   * The sift-down stops where p has no child in the heap, or is no larger
   * than its children: heap order is back.
   */
  lemma DownDone(s: seq<int>, n: int, p: int)
    requires 1 <= p && 1 <= n <= |s| && DownInv(s, n, p)
    requires 2 * p < n ==> s[p] <= s[2 * p]
    requires 2 * p + 1 < n ==> s[p] <= s[2 * p + 1]
    ensures HeapOrdered(s, n)
  {
    forall i | 2 <= i < n
      ensures s[Parent(i)] <= s[i]
    {
      ChildrenOf(p, i);
    }
  }

  /**
   * One round of the sift-down at p, whose left child is in the heap: w is
   * a smallest child (each heap breaks ties its own way; with no right
   * child, w is the left one). If p is no larger than w the order is back;
   * otherwise p and w trade places, which keeps the values and moves the
   * exempted slot to w, and if w was an only child the order is back.
   */
  lemma DownRound(s: seq<int>, n: int, p: int, w: int)
    requires 1 <= p && 2 * p < n <= |s| && DownInv(s, n, p)
    requires w == 2 * p || w == 2 * p + 1
    requires 2 * p + 1 < n ==> s[w] <= s[2 * p] && s[w] <= s[2 * p + 1]
    requires 2 * p + 1 >= n ==> w == 2 * p
    ensures s[p] <= s[w] ==> HeapOrdered(s, n)
    ensures s[w] < s[p] ==> && DownInv(Swap(s, p, w), n, w)
                            && multiset(Swap(s, p, w)[1..n]) == multiset(s[1..n])
    ensures s[w] < s[p] && n <= 2 * p + 1 ==> HeapOrdered(Swap(s, p, w), n)
  {
    if s[p] <= s[w] {
      DownDone(s, n, p);
    } else {
      DownStep(s, n, p, w);
      if n <= 2 * p + 1 {
        DownDone(Swap(s, p, w), n, w);
      }
    }
  }

  /**
   * The round of mound_fc.hpp's restore_invariants: the head of p's
   * smaller child w moves up into p, and w's new head v is no smaller than
   * the value that left it. Only w is exempted afterwards.
   */
  lemma DownPull(s: seq<int>, n: int, p: int, w: int, v: int)
    requires 1 <= p && 2 * p + 1 < n <= |s| && DownInv(s, n, p)
    requires w == 2 * p || w == 2 * p + 1
    requires s[w] <= s[2 * p] && s[w] <= s[2 * p + 1] && s[w] <= v
    ensures DownInv(s[p := s[w]][w := v], n, w)
  {
    var t := s[p := s[w]][w := v];
    forall i | 2 <= i < n && Parent(i) != w
      ensures t[Parent(i)] <= t[i]
    {
      ChildrenOf(p, i);
      if i == w {
      } else if Parent(i) == p {
      } else if i == p {
        assert s[Parent(p)] <= s[w];
      } else {
        assert s[Parent(i)] <= s[i];
      }
    }
    forall k | 2 <= k < n && Parent(k) == w
      ensures t[Parent(w)] <= t[k]
    {
      assert s[w] <= s[k];
    }
  }
}

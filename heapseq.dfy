/**
 * heap_seq_t (mound/heap_seq.hpp): the binary heap of heap_inline.hpp with
 * each slot holding a pointer to a list cell whose `data` is the priority.
 * Every comparison reads `data` through the pointer and every swap
 * exchanges pointers. The lock is left out; one thread runs the
 * operations, and the cell pool is allocation (get) and nothing (put).
 */
module HeapSeq {
  import opened MoundCommon
  import opened BinaryHeap

  /** The priorities of a slot array: each cell's data. */
  ghost function Keys(a: seq<ListCell>): (r: seq<int>)
    ensures |r| == |a|
  {
    seq(|a|, i requires 0 <= i < |a| => a[i].data)
  }

  /** Exchanging two pointers exchanges their priorities. */
  lemma KeysSwap(a: seq<ListCell>, i: int, j: int)
    requires 0 <= i < |a| && 0 <= j < |a|
    ensures Keys(Swap(a, i, j)) == Swap(Keys(a), i, j)
  {
  }

  /** Storing a cell stores its priority. */
  lemma KeysUpdate(a: seq<ListCell>, i: int, x: ListCell)
    requires 0 <= i < |a|
    ensures Keys(a[i := x]) == Keys(a)[i := x.data]
  {
  }

  class Heap {
    const arr: array<ListCell>
    var counter: int

    ghost predicate Valid()
      reads this, arr
    {
      && arr.Length == HEAP_MAX_SIZE && 1 <= counter <= arr.Length
      && HeapOrdered(Keys(arr[..]), counter)
    }

    /** The priorities held: the data of the cells in slots 1 .. counter-1. */
    ghost function Contents(): multiset<int>
      reads this, arr
      requires 1 <= counter <= arr.Length
    {
      multiset(Keys(arr[..])[1..counter])
    }

    /** heap_seq_t(): an array of HEAP_MAX_SIZE pointers and counter 1, the empty heap. */
    constructor ()
      ensures Valid() && fresh(arr) && counter == 1 && Contents() == multiset{}
    {
      var unused := new ListCell(0, null);
      arr := new ListCell[HEAP_MAX_SIZE](_ => unused);
      counter := 1;
    }

    /**
     * add(n): a cell from the pool gets data n and goes in slot counter,
     * then swaps with its parent while its data is strictly smaller. The
     * heap must not be full.
     */
    method Add(n: u32)
      requires Valid() && counter < HEAP_MAX_SIZE
      modifies this, arr
      ensures Valid() && counter == old(counter) + 1
      ensures Contents() == old(Contents()) + multiset{n}
    {
      var node := new ListCell(n, null);
      Insert(counter, node);
      counter := counter + 1;
    }

    /** add on the heap in slots 1 .. top-1: the cell goes in slot top and sifts up. */
    method Insert(top: int, node: ListCell)
      requires 1 <= top < arr.Length && HeapOrdered(Keys(arr[..]), top)
      modifies arr
      ensures HeapOrdered(Keys(arr[..]), top + 1)
      ensures multiset(Keys(arr[..])[1..top + 1]) == multiset(Keys(old(arr[..]))[1..top]) + multiset{node.data as int}
    {
      ghost var s := arr[..];
      UpStart(Keys(s), top, node.data);
      Store(top, node);
      KeysUpdate(s, top, node);
      SiftUp(top, top + 1);
    }

    /**
     * remove(): UINT_MAX on an empty heap; otherwise the root cell's data.
     * The root cell goes back to the pool and the last cell takes its slot
     * before the sift-down.
     */
    method Remove() returns (r: u32)
      requires Valid()
      modifies this, arr
      ensures Valid()
      ensures old(counter) == 1 ==> r == UINT_MAX && counter == 1 && Contents() == old(Contents())
      ensures old(counter) > 1 ==> && IsMin(r, old(Contents())) && counter == old(counter) - 1
                                   && Contents() == old(Contents()) - multiset{r}
    {
      if counter == 1 {
        return UINT_MAX;
      }
      r := Extract(counter);
      counter := counter - 1;
    }

    /** remove on the non-empty heap in slots 1 .. top-1: the root's data, with the last cell sifted down from the root. */
    method Extract(top: int) returns (r: u32)
      requires 2 <= top <= arr.Length && HeapOrdered(Keys(arr[..]), top)
      modifies arr
      ensures HeapOrdered(Keys(arr[..]), top - 1)
      ensures IsMin(r, multiset(Keys(old(arr[..]))[1..top]))
      ensures multiset(Keys(arr[..])[1..top - 1]) == multiset(Keys(old(arr[..]))[1..top]) - multiset{r as int}
    {
      r := arr[1].data;
      ghost var s := arr[..];
      RootIsMinOfBag(Keys(s), top);
      DownStart(Keys(s), top);
      Store(1, arr[top - 1]);
      KeysUpdate(s, 1, s[top - 1]);
      SiftDown(top - 1);
    }

    /** The loop of add: the cell in slot c0 swaps with its parent while its data is strictly smaller. */
    method SiftUp(c0: int, top: int)
      requires 1 <= c0 < top <= arr.Length && UpInv(Keys(arr[..]), top, c0)
      modifies arr
      ensures HeapOrdered(Keys(arr[..]), top)
      ensures multiset(Keys(arr[..])[1..top]) == old(multiset(Keys(arr[..])[1..top]))
    {
      ghost var cells := arr[..];
      ghost var g: seq<int> := Keys(cells);
      ghost var m := multiset(g[1..top]);
      var c := c0;
      while c != 1
        invariant 1 <= c < top
        invariant arr[..] == cells && |cells| == arr.Length
        invariant Keys(cells) == g
        invariant UpInv(g, top, c)
        invariant multiset(g[1..top]) == m
        decreases c
      {
        var p := Parent(c);
        if arr[c].data >= arr[p].data {
          break;
        }
        UpStep(g, top, c);
        SwapBag(g, 1, top, c, p);
        KeysSwap(cells, c, p);
        cells, g := Swap(cells, c, p), Swap(g, c, p);
        Exchange(c, p);
        c := p;
      }
      UpDone(g, top, c);
    }

    /**
     * The loop of remove on slots 1 .. top-1: the cell in slot p trades
     * places with its child of smaller data while its own data is larger;
     * each iteration is one SiftDownRound.
     */
    method SiftDown(top: int)
      requires 1 <= top <= arr.Length && DownInv(Keys(arr[..]), top, 1)
      modifies arr
      ensures HeapOrdered(Keys(arr[..]), top)
      ensures multiset(Keys(arr[..])[1..top]) == old(multiset(Keys(arr[..])[1..top]))
    {
      ghost var m := multiset(Keys(arr[..])[1..top]);
      var p := 1;
      while true
        invariant 1 <= p && DownInv(Keys(arr[..]), top, p)
        invariant multiset(Keys(arr[..])[1..top]) == m
        decreases top - p
      {
        var done, w := SiftDownRound(p, top);
        if done {
          break;
        }
        p := w;
      }
    }

    /**
     * One iteration of remove's loop at slot p: with no child in the heap,
     * or no child of smaller data, the order is back (done); otherwise p
     * trades places with its child of smaller data w (the right one on a
     * tie), and a slot with only a left child is compared with it once.
     */
    method SiftDownRound(p: int, top: int) returns (done: bool, w: int)
      requires 1 <= p && 1 <= top <= arr.Length && DownInv(Keys(arr[..]), top, p)
      modifies arr
      ensures multiset(Keys(arr[..])[1..top]) == old(multiset(Keys(arr[..])[1..top]))
      ensures done ==> HeapOrdered(Keys(arr[..]), top)
      ensures !done ==> p < w < top && DownInv(Keys(arr[..]), top, w)
    {
      ghost var cells := arr[..];
      ghost var g: seq<int> := Keys(cells);
      var l, r := p * 2, p * 2 + 1;
      if l >= top {
        DownDone(g, top, p);
        return true, p;
      }
      assert g[p] == arr[p].data && g[l] == arr[l].data;
      if r >= top {
        DownRound(g, top, p, l);
        if arr[p].data > arr[l].data {
          KeysSwap(cells, p, l);
          Exchange(p, l);
        }
        return true, l;
      }
      assert g[r] == arr[r].data;
      w := if arr[l].data < arr[r].data then l else r;
      DownRound(g, top, p, w);
      if arr[p].data <= arr[w].data {
        return true, w;
      }
      KeysSwap(cells, p, w);
      Exchange(p, w);
      done := false;
    }

    /** Put cell x in slot i. */
    method Store(i: int, x: ListCell)
      requires 0 <= i < arr.Length
      modifies arr
      ensures arr[..] == old(arr[..])[i := x]
    {
      arr[i] := x;
    }

    /** Exchange the pointers in slots i and j. */
    method Exchange(i: int, j: int)
      requires 0 <= i < arr.Length && 0 <= j < arr.Length
      modifies arr
      ensures arr[..] == Swap(old(arr[..]), i, j)
    {
      arr[i], arr[j] := arr[j], arr[i];
    }
  }
}

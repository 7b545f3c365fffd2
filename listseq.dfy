/**
 * list_seq_t (mound/list_seq.hpp): a priority queue kept as a singly
 * linked list of list cells in non-decreasing order of data. The lock is
 * left out; one thread runs the operations, and the cell pool is
 * allocation (get) and nothing (put).
 */
module ListSeq {
  import opened MoundCommon

  /** The data of a run of cells, in list order. */
  ghost function Data(cells: seq<ListCell>): (r: seq<int>)
    ensures |r| == |cells| && forall i :: 0 <= i < |cells| ==> r[i] == cells[i].data
  {
    seq(|cells|, i requires 0 <= i < |cells| => cells[i].data)
  }

  /** No cell occurs twice. */
  ghost predicate NoDup(s: seq<ListCell>)
    decreases |s|
  {
    |s| == 0 || (s[0] !in s[1..] && NoDup(s[1..]))
  }

  /** Different positions of a run without repeats hold different cells. */
  lemma {:induction false} NoDupIndex(s: seq<ListCell>, i: int, j: int)
    requires NoDup(s) && 0 <= i < |s| && 0 <= j < |s| && i != j
    ensures s[i] != s[j]
    decreases |s|
  {
    if i > 0 && j > 0 {
      NoDupIndex(s[1..], i - 1, j - 1);
    } else if i == 0 {
      assert s[j] == s[1..][j - 1];
    } else {
      assert s[i] == s[1..][i - 1];
    }
  }

  /** Putting a cell that is not in a run without repeats anywhere in it leaves no repeats. */
  lemma {:induction false} NoDupInsert(s: seq<ListCell>, k: int, x: ListCell)
    requires NoDup(s) && 0 <= k <= |s| && x !in s
    ensures NoDup(s[..k] + [x] + s[k..])
    decreases |s|
  {
    var e := s[..k] + [x] + s[k..];
    if k == 0 {
      assert e == [x] + s && e[1..] == s;
    } else {
      NoDupInsert(s[1..], k - 1, x);
      assert e[1..] == s[1..][..k - 1] + [x] + s[1..][k - 1..];
      assert e[0] == s[0];
      assert s[0] !in e[1..] by {
        assert forall y :: y in e[1..] ==> y == x || y in s[1..];
      }
    }
  }

  /** The sequence d with n put at position k. */
  function InsertAt(d: seq<int>, k: int, n: int): (e: seq<int>)
    requires 0 <= k <= |d|
    ensures |e| == |d| + 1
    ensures multiset(e) == multiset(d) + multiset{n}
  {
    assert d == d[..k] + d[k..];
    d[..k] + [n] + d[k..]
  }

  /** InsertAt(d, k, n) holds d's values before k, then n, then the rest of d's values. */
  lemma InsertAtIndex(d: seq<int>, k: int, n: int)
    requires 0 <= k <= |d|
    ensures forall i :: 0 <= i < |d| + 1 ==> InsertAt(d, k, n)[i] == if i < k then d[i] else if i == k then n else d[i - 1]
  {
    var e := InsertAt(d, k, n);
    forall i | 0 <= i < |d| + 1
      ensures e[i] == if i < k then d[i] else if i == k then n else d[i - 1]
    {
      if i < k {
        assert e[i] == d[..k][i];
      } else if i > k {
        assert e[i] == d[k..][i - k - 1];
      }
    }
  }

  /** Linking a cell in at position k puts its data at position k. */
  lemma DataInsert(c: seq<ListCell>, k: int, x: ListCell)
    requires 0 <= k <= |c|
    ensures Data(c[..k] + [x] + c[k..]) == InsertAt(Data(c), k, x.data)
  {
    var e, f := Data(c[..k] + [x] + c[k..]), InsertAt(Data(c), k, x.data);
    forall i | 0 <= i < |e|
      ensures e[i] == f[i]
    {
      if i < k {
        assert (c[..k] + [x] + c[k..])[i] == c[i];
      } else if i > k {
        assert (c[..k] + [x] + c[k..])[i] == c[i - 1];
      }
    }
  }

  /** Putting n after the values smaller than it and before the rest keeps a sorted sequence sorted. */
  lemma InsertSorted(d: seq<int>, k: int, n: int)
    requires 0 <= k <= |d| && Sorted(d)
    requires forall i :: 0 <= i < k ==> d[i] < n
    requires k < |d| ==> n <= d[k]
    ensures Sorted(InsertAt(d, k, n))
  {
    var e := InsertAt(d, k, n);
    forall i, j | 0 <= i < j < |e|
      ensures e[i] <= e[j]
    {
      if i < k && k < j {
        assert d[i] < n <= d[k] <= d[j - 1];
      }
    }
  }

  /** Linking a fresh cell in at the first position whose data is at least its own keeps the run without repeats and sorted, with the data at position k. */
  lemma LinkValues(c: seq<ListCell>, k: int, x: ListCell)
    requires 0 <= k <= |c| && x !in c && NoDup(c) && Sorted(Data(c))
    requires forall i :: 0 <= i < k ==> c[i].data < x.data
    requires k < |c| ==> x.data <= c[k].data
    ensures NoDup(c[..k] + [x] + c[k..])
    ensures Data(c[..k] + [x] + c[k..]) == InsertAt(Data(c), k, x.data)
    ensures Sorted(Data(c[..k] + [x] + c[k..]))
  {
    InsertSorted(Data(c), k, x.data);
    DataInsert(c, k, x);
    NoDupInsert(c, k, x);
  }

  /** Each cell of the run points at the next one, and the last at null. */
  ghost predicate Chained(s: seq<ListCell>)
    reads s
  {
    forall i {:trigger s[i].next} :: 0 <= i < |s| ==> s[i].next == if i + 1 < |s| then s[i + 1] else null
  }

  /** A cell pointing at the first cell of a chain (or at null for the empty one) extends it at the front. */
  lemma ChainedFront(s: seq<ListCell>, x: ListCell)
    requires Chained(s) && x.next == (if |s| > 0 then s[0] else null)
    ensures s[..0] + [x] + s[0..] == [x] + s
    ensures Chained([x] + s)
  {
    assert s[..0] + [x] + s[0..] == [x] + s;
    var e := [x] + s;
    forall i | 0 <= i < |e|
      ensures e[i].next == if i + 1 < |e| then e[i + 1] else null
    {
      if i > 0 {
        assert e[i] == s[i - 1];
      }
    }
  }

  /**
   * prev->next = node for prev the cell at position k-1 of a chain without
   * repeats, node pointing at the cell at position k (or at null): node is
   * in the chain at position k.
   */
  method SetNext(prev: ListCell, node: ListCell, ghost s: seq<ListCell>, ghost k: int)
    requires Chained(s) && NoDup(s) && 1 <= k <= |s| && prev == s[k - 1] && node !in s
    requires node.next == (if k < |s| then s[k] else null)
    modifies prev
    ensures Chained(s[..k] + [node] + s[k..])
  {
    prev.next := node;
    var e := s[..k] + [node] + s[k..];
    forall i | 0 <= i < |e|
      ensures e[i].next == if i + 1 < |e| then e[i + 1] else null
    {
      if i < k - 1 {
        NoDupIndex(s, i, k - 1);
        assert e[i] == s[i] && e[i + 1] == s[i + 1];
      } else if i == k - 1 {
        assert e[i] == prev && e[i + 1] == node;
      } else if i == k {
        assert e[i] == node;
        if i + 1 < |e| {
          assert e[i + 1] == s[k];
        }
      } else {
        NoDupIndex(s, i - 1, k - 1);
        assert e[i] == s[i - 1];
        if i + 1 < |e| {
          assert e[i + 1] == s[i];
        }
      }
    }
  }

  class SortedList {
    var head: ListCell?
    /** The cells reachable from head, in list order. */
    ghost var cells: seq<ListCell>

    /** head starts the chain of cells, which ends in null, has no repeats and is sorted. */
    ghost predicate Valid()
      reads this, cells
    {
      && head == (if |cells| == 0 then null else cells[0])
      && Chained(cells)
      && NoDup(cells)
      && Sorted(Data(cells))
    }

    /** Valid depends only on the list's own cells. */
    twostate lemma StillValid()
      requires old(Valid()) && unchanged(this) && unchanged(old(cells))
      ensures Valid()
    {
    }

    /** The priorities held, smallest first. */
    ghost function Values(): seq<int>
      reads this, cells
    {
      Data(cells)
    }

    /** list_seq_t(): the empty list. */
    constructor ()
      ensures Valid() && Values() == []
    {
      head := null;
      cells := [];
    }

    /**
     * add(n): walk past the cells with data smaller than n and link a new
     * cell holding n in front of the first cell whose data is at least n
     * (or at the end).
     */
    method Add(n: u32)
      requires Valid()
      modifies this, cells
      ensures Valid()
      ensures multiset(Values()) == multiset(old(Values())) + multiset{n}
      ensures Sorted(Values())
    {
      var prev, curr, k := Find(n);
      label before:
      var node := new ListCell(n, curr);
      StillValid@before();
      Link(prev, node, k);
    }

    /**
     * The end of add: the new cell, already pointing at cell k (or null),
     * is linked in as the k-th cell, after prev or as the head.
     */
    method Link(prev: ListCell?, node: ListCell, ghost k: int)
      requires Valid() && 0 <= k <= |cells| && node !in cells
      requires prev == (if k == 0 then null else cells[k - 1])
      requires node.next == (if k < |cells| then cells[k] else null)
      requires forall i :: 0 <= i < k ==> cells[i].data < node.data
      requires k < |cells| ==> node.data <= cells[k].data
      modifies this, prev
      ensures Valid() && Values() == InsertAt(old(Values()), k, node.data)
    {
      if prev != null {
        LinkAfter(prev, node, k);
      } else {
        LinkFront(node);
      }
    }

    /** prev->next = node: the new cell goes in as the k-th cell, k at least 1. */
    method LinkAfter(prev: ListCell, node: ListCell, ghost k: int)
      requires Valid() && 1 <= k <= |cells| && node !in cells && prev == cells[k - 1]
      requires node.next == (if k < |cells| then cells[k] else null)
      requires forall i :: 0 <= i < k ==> cells[i].data < node.data
      requires k < |cells| ==> node.data <= cells[k].data
      modifies this, prev
      ensures Valid() && Values() == InsertAt(old(Values()), k, node.data)
    {
      ghost var c := cells;
      ghost var e := c[..k] + [node] + c[k..];
      LinkValues(c, k, node);
      assert e[0] == c[0];
      cells := e;
      SetNext(prev, node, c, k);
    }

    /** head = node: the new cell, pointing at the old head, goes in as the first cell. */
    method LinkFront(node: ListCell)
      requires Valid() && node !in cells
      requires node.next == (if 0 < |cells| then cells[0] else null)
      requires 0 < |cells| ==> node.data <= cells[0].data
      modifies this
      ensures Valid() && Values() == InsertAt(old(Values()), 0, node.data)
    {
      ghost var c := cells;
      LinkValues(c, 0, node);
      ChainedFront(c, node);
      cells := c[..0] + [node] + c[0..];
      head := node;
    }

    /**
     * The walk of add: prev and curr stop around position k, the first
     * cell whose data is at least n (k is the length if there is none).
     */
    method Find(n: int) returns (prev: ListCell?, curr: ListCell?, ghost k: int)
      requires Valid()
      ensures 0 <= k <= |cells|
      ensures curr == (if k < |cells| then cells[k] else null)
      ensures prev == (if k == 0 then null else cells[k - 1])
      ensures forall i :: 0 <= i < k ==> cells[i].data < n
      ensures k < |cells| ==> n <= cells[k].data
    {
      curr, prev, k := head, null, 0;
      while curr != null
        invariant 0 <= k <= |cells|
        invariant curr == (if k < |cells| then cells[k] else null)
        invariant prev == (if k == 0 then null else cells[k - 1])
        invariant forall i :: 0 <= i < k ==> cells[i].data < n
        decreases |cells| - k
      {
        if n <= curr.data {
          break;
        }
        prev := curr;
        curr := curr.next;
        k := k + 1;
      }
    }

    /** remove(): UINT_MAX on the empty list; otherwise unlink the head cell and answer its data. */
    method Remove() returns (r: u32)
      requires Valid()
      modifies this
      ensures Valid()
      ensures old(Values()) == [] ==> r == UINT_MAX && Values() == []
      ensures old(Values()) != [] ==> && r == old(Values())[0] && Values() == old(Values())[1..]
                                      && IsMin(r, multiset(old(Values())))
    {
      if head == null {
        return UINT_MAX;
      }
      SortedHeadIsMin(Values());
      r := head.data;
      assert head.next == if |cells| > 1 then cells[1] else null;
      head := head.next;
      cells := cells[1..];
    }
  }
}

/**
 * The value side of mound_RTM_cgl_t (mound/mound_RTM_cgl.hpp): a mound is
 * a complete binary tree stored level by level, level l holding 2^l nodes,
 * and each node holds a sorted list. The list heads are heap-ordered: no
 * node's head exceeds its children's heads, the head of an empty list
 * reading as UINT_MAX. Node (l, i) has children (l+1, 2i) and (l+1, 2i+1).
 *
 * A node's list is a chain of pool cells that nobody writes while it is in
 * the list (push links a fresh cell in front, pop unlinks the head, and
 * restore_invariants swaps whole lists), so a list is modelled by the
 * sequence of its data, head first.
 */
module MoundTree {
  import opened Powers
  import opened MoundCommon
  import opened BinaryHeap

  /** x >> k on an unsigned word: k halvings. */
  function Shr(x: nat, k: nat): nat
  {
    if k == 0 then x else Shr(x / 2, k - 1)
  }

  /** Two shifts are one: (x >> a) >> b == x >> (a + b). */
  lemma {:induction false} ShrTwice(x: nat, a: nat, b: nat)
    ensures Shr(Shr(x, a), b) == Shr(x, a + b)
    decreases a
  {
    if a > 0 {
      ShrTwice(x / 2, a - 1, b);
    }
  }

  /** An index of a level of 2^(a+b) nodes, shifted right by b, indexes a level of 2^a nodes. */
  lemma {:induction false} ShrBound(x: nat, a: nat, b: nat)
    requires x < Pow2(a + b)
    ensures Shr(x, b) < Pow2(a)
    decreases b
  {
    if b > 0 {
      ShrBound(x / 2, a, b - 1);
    }
  }

  /**
   * A step of add's binary search: from x, the ancestor of `leaf` on level c
   * of a tree whose leaves are on level b, shifting right by c - m gives
   * the ancestor on level m.
   */
  lemma Ancestor(leaf: nat, b: nat, c: nat, x: nat, m: nat)
    requires m < c <= b && x == Shr(leaf, b - c) && x < Pow2(c)
    ensures Shr(x, c - m) == Shr(leaf, b - m) && Shr(x, c - m) < Pow2(m)
  {
    ShrTwice(leaf, b - c, c - m);
    assert b - c + (c - m) == b - m;
    ShrBound(x, m, c - m);
  }

  /** x is the ancestor on level l of node `leaf` of level b. */
  ghost predicate OnPath(leaf: nat, b: nat, l: nat, x: int)
    requires l <= b
  {
    0 <= x < Pow2(l) && x == Shr(leaf, b - l)
  }

  /** Ancestor, for nodes known to be on the path to `leaf`. */
  lemma PathAncestor(leaf: nat, b: nat, c: nat, x: nat, m: nat)
    requires m < c <= b && OnPath(leaf, b, c, x)
    ensures OnPath(leaf, b, m, Shr(x, c - m))
  {
    Ancestor(leaf, b, c, x, m);
  }

  /** Two nodes on the path to `leaf`, on adjacent levels, are parent and child. */
  lemma PathParent(leaf: nat, b: nat, c: nat, x: nat, y: int)
    requires 1 <= c <= b && OnPath(leaf, b, c, x) && OnPath(leaf, b, c - 1, y)
    ensures y == x / 2
  {
    Ancestor(leaf, b, c, x, c - 1);
  }

  /** mound_cgl_node_t::peek(): the head, or UINT_MAX for an empty list. */
  function Peek(list: seq<u32>): u32
  {
    if list == [] then UINT_MAX else list[0]
  }

  /** mound_cgl_node_t::push(n): n becomes the new head, which a pop takes off again. */
  function Push(list: seq<u32>, n: u32): (r: seq<u32>)
    ensures Peek(r) == n && Pop(r) == (n, list)
  {
    [n] + list
  }

  /** mound_cgl_node_t::pop(): what peek shows, with one value fewer, or UINT_MAX and no change. */
  function Pop(list: seq<u32>): (r: (u32, seq<u32>))
    ensures r.0 == Peek(list) && |r.1| == if list == [] then 0 else |list| - 1
  {
    if list == [] then (UINT_MAX, list) else (list[0], list[1..])
  }

  /**
   * The node operations: a node is empty() exactly when its list is, an
   * empty node peeks as UINT_MAX and pops UINT_MAX unchanged, a pop
   * answers what peek shows, and pop undoes push.
   */
  lemma NodeOps(list: seq<u32>, n: u32)
    ensures Peek(Push(list, n)) == n && Pop(Push(list, n)) == (n, list)
    ensures list == [] ==> Peek(list) == UINT_MAX && Pop(list) == (UINT_MAX, list)
    ensures list != [] ==> Pop(list).0 == Peek(list) && Push(Pop(list).1, Pop(list).0) == list
    ensures |Push(list, n)| == |list| + 1
    ensures multiset(Push(list, n)) == multiset(list) + multiset{n}
  {
  }

  /*
   * The mound's nodes in heap order: node (l, i) is slot 2^l + i of one
   * sequence, so the children of slot k are slots 2k and 2k+1 and its
   * parent is slot k/2, as in the array heaps; slot 0 is unused and empty.
   * The list heads, read through Peek, then form a heap on slots 1 .. 2^(bottom+1)-1.
   */

  /** Level l of rows has 2^l nodes. */
  ghost predicate Sizes(rows: seq<seq<seq<u32>>>)
  {
    forall l :: 0 <= l < |rows| ==> |rows[l]| == Pow2(l)
  }

  /** The lists of the levels in slot order: the unused slot 0, then level 0, level 1 and so on. */
  ghost function Cat(rows: seq<seq<seq<u32>>>): (f: seq<seq<u32>>)
    ensures Sizes(rows) ==> |f| == Pow2(|rows|)
    ensures |f| >= 1 && f[0] == []
    decreases |rows|
  {
    if |rows| == 0 then [[]] else Cat(rows[..|rows| - 1]) + rows[|rows| - 1]
  }

  /** Node (l, i) is slot 2^l + i. */
  lemma {:induction false} CatAt(rows: seq<seq<seq<u32>>>, l: int, i: int)
    requires Sizes(rows) && 0 <= l < |rows| && 0 <= i < Pow2(l)
    ensures Pow2(l) + i < |Cat(rows)| && Cat(rows)[Pow2(l) + i] == rows[l][i]
    decreases |rows|
  {
    var n := |rows|;
    var p := rows[..n - 1];
    assert Sizes(p);
    if l < n - 1 {
      CatAt(p, l, i);
    }
  }

  /** CatAt for a slot k already known to be 2^l + i. */
  lemma SlotOf(rows: seq<seq<seq<u32>>>, l: int, i: int, k: int)
    requires Sizes(rows) && 0 <= l < |rows| && 0 <= i < Pow2(l) && k == Pow2(l) + i
    ensures k < |Cat(rows)| && Cat(rows)[k] == rows[l][i]
  {
    CatAt(rows, l, i);
  }

  /** Writing node (l, i) writes slot 2^l + i and nothing else. */
  lemma {:induction false} CatSet(rows: seq<seq<seq<u32>>>, l: int, i: int, x: seq<u32>)
    requires Sizes(rows) && 0 <= l < |rows| && 0 <= i < Pow2(l)
    ensures Pow2(l) + i < |Cat(rows)|
    ensures Cat(rows[l := rows[l][i := x]]) == Cat(rows)[Pow2(l) + i := x]
    decreases |rows|
  {
    CatAt(rows, l, i);
    if l == |rows| - 1 {
      CatSetLast(rows, i, x);
    } else {
      var p := rows[..|rows| - 1];
      assert Sizes(p);
      CatSet(p, l, i, x);
      CatSetEarlier(rows, l, i, x, Pow2(l) + i);
    }
  }

  /** The step of CatSet for a node above the last level, slot k: the write happens in the prefix. */
  lemma CatSetEarlier(rows: seq<seq<seq<u32>>>, l: int, i: int, x: seq<u32>, k: int)
    requires 0 <= l < |rows| - 1 && 0 <= i < |rows[l]| && 0 <= k < |Cat(rows[..|rows| - 1])|
    requires var p := rows[..|rows| - 1]; Cat(p[l := p[l][i := x]]) == Cat(p)[k := x]
    ensures Cat(rows[l := rows[l][i := x]]) == Cat(rows)[k := x]
  {
    var n := |rows|;
    var p := rows[..n - 1];
    var t := rows[l := rows[l][i := x]];
    var last := rows[n - 1];
    assert t[..n - 1] == p[l := p[l][i := x]];
    assert t[n - 1] == last;
    var a := Cat(p);
    assert Cat(t) == a[k := x] + last;
    assert Cat(rows) == a + last;
    UpdateLeft(a, last, k, x);
  }

  /** Writing a node of the last level writes the tail of the slots. */
  lemma CatSetLast(rows: seq<seq<seq<u32>>>, i: int, x: seq<u32>)
    requires Sizes(rows) && |rows| > 0 && 0 <= i < Pow2(|rows| - 1)
    ensures Pow2(|rows| - 1) + i < |Cat(rows)|
    ensures Cat(rows[|rows| - 1 := rows[|rows| - 1][i := x]]) == Cat(rows)[Pow2(|rows| - 1) + i := x]
  {
    var n := |rows|;
    var p := rows[..n - 1];
    var last := rows[n - 1];
    var t := rows[n - 1 := last[i := x]];
    assert Sizes(p);
    assert t[..n - 1] == p;
    var a := Cat(p);
    assert |a| == Pow2(n - 1);
    assert Cat(t) == a + last[i := x];
    assert Cat(rows) == a + last;
    UpdateRight(a, last, i, x);
  }

  lemma UpdateLeft<T>(a: seq<T>, b: seq<T>, k: int, x: T)
    requires 0 <= k < |a|
    ensures a[k := x] + b == (a + b)[k := x]
  {
  }

  lemma UpdateRight<T>(a: seq<T>, b: seq<T>, i: int, x: T)
    requires 0 <= i < |b|
    ensures a + b[i := x] == (a + b)[|a| + i := x]
  {
  }

  /** The list heads as peek() reads them. */
  ghost function Heads(f: seq<seq<u32>>): (r: seq<int>)
    ensures |r| == |f|
  {
    seq(|f|, k requires 0 <= k < |f| => Peek(f[k]) as int)
  }

  lemma HeadsUpdate(f: seq<seq<u32>>, k: int, x: seq<u32>)
    requires 0 <= k < |f|
    ensures Heads(f[k := x]) == Heads(f)[k := Peek(x) as int]
  {
  }

  lemma HeadsSwap(f: seq<seq<u32>>, i: int, j: int)
    requires 0 <= i < |f| && 0 <= j < |f|
    ensures Heads(Swap(f, i, j)) == Swap(Heads(f), i, j)
  {
  }

  /** The mound's invariant on the list heads: a heap on slots 1 .. |f|-1. */
  ghost predicate Ordered(f: seq<seq<u32>>)
  {
    2 <= |f| && HeapOrdered(Heads(f), |f|)
  }

  /** Every node's list is sorted. */
  ghost predicate ListsSorted(f: seq<seq<u32>>)
  {
    forall k :: 0 <= k < |f| ==> Sorted(f[k])
  }

  /** The values held by the lists of f. */
  ghost function Bag(f: seq<seq<u32>>): multiset<int>
    decreases |f|
  {
    if |f| == 0 then multiset{} else Bag(f[..|f| - 1]) + multiset(f[|f| - 1])
  }

  /** A level of k empty nodes, as grow() allocates it. */
  function EmptyLevel(k: nat): (lv: seq<seq<u32>>)
    ensures |lv| == k
  {
    seq(k, _ => [])
  }

  lemma Cancel(a: multiset<int>, b: multiset<int>, c: multiset<int>)
    requires a + c == b + c
    ensures a == b
  {
    assert forall x :: a[x] == (a + c)[x] - c[x];
  }

  lemma CancelOne(a: multiset<int>, b: multiset<int>, c: multiset<int>, r: int)
    requires a + (multiset{r} + c) == b + c
    ensures a == b - multiset{r}
  {
    assert forall x :: a[x] == (a + (multiset{r} + c))[x] - c[x] - multiset{r}[x];
  }

  /** Replacing the list of slot k trades its values for the new list's. */
  lemma {:induction false} BagUpdate(f: seq<seq<u32>>, k: int, x: seq<u32>)
    requires 0 <= k < |f|
    ensures Bag(f[k := x]) + multiset(f[k]) == Bag(f) + multiset(x)
    decreases |f|
  {
    var n := |f|;
    var t := f[k := x];
    var a, b := f[..n - 1], t[..n - 1];
    assert Bag(t) == Bag(b) + multiset(t[n - 1]);
    assert Bag(f) == Bag(a) + multiset(f[n - 1]);
    if k == n - 1 {
      assert b == a && t[n - 1] == x;
    } else {
      assert b == a[k := x] && a[k] == f[k] && t[n - 1] == f[n - 1];
      BagUpdate(a, k, x);
      assert Bag(t) + multiset(f[k]) == Bag(a) + multiset(x) + multiset(f[n - 1]);
    }
  }

  /** A value held sits in some slot's list. */
  lemma {:induction false} BagMember(f: seq<seq<u32>>, x: int)
    requires x in Bag(f)
    ensures exists k :: 0 <= k < |f| && x in f[k]
    decreases |f|
  {
    var n := |f|;
    if x !in multiset(f[n - 1]) {
      BagMember(f[..n - 1], x);
      var k :| 0 <= k < n - 1 && x in f[..n - 1][k];
      assert f[..n - 1][k] == f[k];
    }
  }

  /** Every value of every slot's list is held. */
  lemma {:induction false} BagHas(f: seq<seq<u32>>, k: int)
    requires 0 <= k < |f|
    ensures multiset(f[k]) <= Bag(f)
    decreases |f|
  {
    var n := |f|;
    if k < n - 1 {
      BagHas(f[..n - 1], k);
      assert f[..n - 1][k] == f[k];
    }
  }

  /** Appending empty nodes adds no value. */
  lemma {:induction false} BagGrow(f: seq<seq<u32>>, k: nat)
    ensures Bag(f + EmptyLevel(k)) == Bag(f)
    decreases k
  {
    if k > 0 {
      var t := f + EmptyLevel(k);
      assert t[..|t| - 1] == f + EmptyLevel(k - 1) && t[|t| - 1] == [];
      assert Bag(t) == Bag(t[..|t| - 1]) + multiset(t[|t| - 1]);
      assert multiset(t[|t| - 1]) == multiset{};
      BagGrow(f, k - 1);
    } else {
      assert f + EmptyLevel(k) == f;
    }
  }

  /** Exchanging two lists keeps the sortedness of the lists and the values held. */
  lemma SwapKeeps(f: seq<seq<u32>>, i: int, j: int)
    requires 0 <= i < |f| && 0 <= j < |f| && i != j
    ensures ListsSorted(f) ==> ListsSorted(Swap(f, i, j))
    ensures Bag(Swap(f, i, j)) == Bag(f)
    ensures Heads(Swap(f, i, j)) == Swap(Heads(f), i, j)
  {
    var w := f[i := f[j]];
    BagUpdate(f, i, f[j]);
    BagUpdate(w, j, f[i]);
    assert w[j] == f[j];
    Cancel(Bag(Swap(f, i, j)), Bag(f), multiset(f[j]));
    HeadsSwap(f, i, j);
  }

  /** Node (l, i) above the last of m levels has both children, slots 2p and 2p+1 of its slot p. */
  lemma ChildSlots(l: nat, i: int, m: nat, p: int, n: int)
    requires l + 1 < m && 0 <= i < Pow2(l) && p == Pow2(l) + i && n == Pow2(m)
    ensures 1 <= p && 2 * i + 1 < Pow2(l + 1) && Pow2(l + 1) + 2 * i == 2 * p && 2 * p + 1 < n
  {
    assert Pow2(l + 1) == 2 * Pow2(l);
    if l + 2 < m {
      Pow2Monotone(l + 2, m);
    }
  }

  /** A node (l, i) on the last level, slot p, has no children among the n slots. */
  lemma NoChildSlots(l: nat, i: int, p: int, n: int)
    requires 0 <= i && p == Pow2(l) + i && n == Pow2(l + 1)
    ensures 1 <= p && 2 * p >= n
  {
    assert Pow2(l + 1) == 2 * Pow2(l);
  }

  /** The parent of node (l, i), slot k, is node (l-1, i/2). */
  lemma ParentSlot(l: nat, i: nat, k: int)
    requires 1 <= l && k == Pow2(l) + i
    ensures Parent(k) == Pow2(l - 1) + i / 2
  {
    assert Pow2(l) == 2 * Pow2(l - 1);
  }

  /**
   * add's push below the root: node (l, i), slot k, whose head is at least
   * n and whose parent's head is smaller, takes n at the front of its list.
   */
  lemma PushBelow(rows: seq<seq<seq<u32>>>, l: int, i: int, n: u32, k: int)
    requires Sizes(rows) && 1 <= l < |rows| && 0 <= i < Pow2(l) && i / 2 < Pow2(l - 1) && k == Pow2(l) + i
    requires Ordered(Cat(rows)) && ListsSorted(Cat(rows))
    requires Peek(rows[l - 1][i / 2]) < n <= Peek(rows[l][i])
    ensures k < |Cat(rows)|
    ensures var t := Cat(rows)[k := Push(rows[l][i], n)];
            Ordered(t) && ListsSorted(t) && Bag(t) == Bag(Cat(rows)) + multiset{n as int}
  {
    ParentSlot(l, i, k);
    SlotOf(rows, l, i, k);
    SlotOf(rows, l - 1, i / 2, Parent(k));
    PushAt(Cat(rows), k, n);
  }

  /** The child of slot p that restore_invariants picks: the right one only when its head is strictly smaller. */
  function Winner(f: seq<seq<u32>>, p: int): (w: int)
    requires 1 <= p && 2 * p + 1 < |f|
    ensures (w == 2 * p || w == 2 * p + 1) && Peek(f[w]) <= Peek(f[2 * p]) && Peek(f[w]) <= Peek(f[2 * p + 1])
  {
    if Peek(f[2 * p + 1]) < Peek(f[2 * p]) then 2 * p + 1 else 2 * p
  }

  /**
   * One round of restore_invariants on the tree f with slot p exempted:
   * when the picked child's head is not smaller, the tree is ordered;
   * otherwise exchanging the two lists leaves only the child exempted
   * (SwapKeeps says that the lists stay sorted and the values stay).
   */
  lemma DownTree(f: seq<seq<u32>>, p: int)
    requires 1 <= p && 2 * p + 1 < |f| && DownInv(Heads(f), |f|, p)
    ensures Peek(f[p]) <= Peek(f[Winner(f, p)]) ==> Ordered(f)
    ensures Peek(f[Winner(f, p)]) < Peek(f[p]) ==> DownInv(Heads(Swap(f, p, Winner(f, p))), |f|, Winner(f, p))
  {
    var w := Winner(f, p);
    HeadsAt(f, p, w);
    DownRound(Heads(f), |f|, p, w);
    HeadsSwap(f, p, w);
  }

  /** What restore_invariants keeps: the lists sorted, the values bag, and the order except below slot p. */
  ghost predicate Exempt(f: seq<seq<u32>>, p: int, bag: multiset<int>)
  {
    1 <= p && 2 <= |f| && ListsSorted(f) && DownInv(Heads(f), |f|, p) && Bag(f) == bag
  }

  /** A round above the last level either finds the tree ordered or moves the exemption to the picked child. */
  lemma ExemptStep(f: seq<seq<u32>>, p: int, bag: multiset<int>)
    requires Exempt(f, p, bag) && 2 * p + 1 < |f|
    ensures Peek(f[p]) <= Peek(f[Winner(f, p)]) ==> Ordered(f)
    ensures Peek(f[Winner(f, p)]) < Peek(f[p]) ==> Exempt(Swap(f, p, Winner(f, p)), Winner(f, p), bag)
  {
    DownTree(f, p);
    SwapKeeps(f, p, Winner(f, p));
  }

  /** The heads at slot p and at its picked child w. */
  lemma HeadsAt(f: seq<seq<u32>>, p: int, w: int)
    requires 1 <= p && 2 * p + 1 < |f| && w == Winner(f, p)
    ensures Heads(f)[p] == Peek(f[p]) && Heads(f)[w] == Peek(f[w])
    ensures Heads(f)[w] <= Heads(f)[2 * p] && Heads(f)[w] <= Heads(f)[2 * p + 1]
  {
  }

  /**
   * The round of mound_fc.hpp's restore_invariants on the lists f with
   * slot p exempted: the picked child w, whose head is smaller than p's,
   * gives its head to the front of p's list. The lists stay sorted, the
   * values stay, and only w is exempted afterwards.
   */
  lemma PullUp(f: seq<seq<u32>>, p: int, w: int)
    requires 1 <= p && 2 * p + 1 < |f| && ListsSorted(f) && DownInv(Heads(f), |f|, p)
    requires w == Winner(f, p) && Peek(f[w]) < Peek(f[p])
    ensures f[w] != []
    ensures var t := f[w := f[w][1..]][p := Push(f[p], f[w][0])];
            ListsSorted(t) && DownInv(Heads(t), |f|, w) && Bag(t) == Bag(f)
  {
    HeadsAt(f, p, w);
    var t := f[w := f[w][1..]][p := Push(f[p], f[w][0])];
    PullHeads(f, p, w, t);
    PullSorted(f, p, w, t);
    PullBag(f, p, w, t);
  }

  /** The heads after PullUp's move: only w is exempted. */
  lemma PullHeads(f: seq<seq<u32>>, p: int, w: int, t: seq<seq<u32>>)
    requires 1 <= p && 2 * p + 1 < |f| && ListsSorted(f) && DownInv(Heads(f), |f|, p)
    requires w == Winner(f, p) && f[w] != [] && f[w][0] < Peek(f[p])
    requires t == f[w := f[w][1..]][p := Push(f[p], f[w][0])]
    ensures DownInv(Heads(t), |f|, w)
  {
    var a := f[w][1..];
    var f1 := f[w := a];
    HeadsAt(f, p, w);
    HeadsUpdate(f, w, a);
    HeadsUpdate(f1, p, Push(f[p], f[w][0]));
    var h := Heads(f);
    var v := Peek(a) as int;
    assert Sorted(f[w]);
    assert f[w][0] as int <= v;
    assert Heads(t) == h[p := h[w]][w := v];
    DownPull(h, |f|, p, w, v);
  }

  /** The lists after PullUp's move stay sorted. */
  lemma PullSorted(f: seq<seq<u32>>, p: int, w: int, t: seq<seq<u32>>)
    requires 0 <= p < |f| && 0 <= w < |f| && ListsSorted(f) && f[w] != [] && f[w][0] <= Peek(f[p])
    requires t == f[w := f[w][1..]][p := Push(f[p], f[w][0])]
    ensures ListsSorted(t)
  {
    forall k | 0 <= k < |t|
      ensures Sorted(t[k])
    {
      assert Sorted(f[k]);
    }
  }

  /** PullUp's move keeps the values held. */
  lemma PullBag(f: seq<seq<u32>>, p: int, w: int, t: seq<seq<u32>>)
    requires 0 <= p < |f| && 0 <= w < |f| && p != w && f[w] != []
    requires t == f[w := f[w][1..]][p := Push(f[p], f[w][0])]
    ensures Bag(t) == Bag(f)
  {
    var x, a := f[w][0], f[w][1..];
    var b := Push(f[p], x);
    var f1 := f[w := a];
    BagUpdate(f, w, a);
    BagUpdate(f1, p, b);
    assert f[w] == [x] + a && f1[p] == f[p];
    assert multiset(f[w]) == multiset{x as int} + multiset(a);
    assert multiset(b) == multiset{x as int} + multiset(f[p]);
    Cancel(Bag(f1) + multiset{x as int}, Bag(f), multiset(a));
    Cancel(Bag(t), Bag(f1) + multiset{x as int}, multiset(f[p]));
  }

  /** The root's head is no larger than any value held. */
  lemma RootIsLeast(f: seq<seq<u32>>)
    requires Ordered(f) && ListsSorted(f) && f[0] == []
    ensures forall x :: x in Bag(f) ==> Peek(f[1]) <= x <= UINT_MAX
  {
    forall x | x in Bag(f)
      ensures Peek(f[1]) <= x <= UINT_MAX
    {
      BagMember(f, x);
      var k :| 0 <= k < |f| && x in f[k];
      var j :| 0 <= j < |f[k]| && f[k][j] == x;
      assert Sorted(f[k]);
      RootIsMin(Heads(f), |f|, k);
    }
  }

  /**
   * remove's first step: popping the root of an ordered mound leaves the
   * order intact except at the root and takes the old head, a smallest
   * value held, out of the values held. An empty root pops to no change,
   * and then every value held is UINT_MAX.
   */
  lemma PopRoot(f: seq<seq<u32>>)
    requires Ordered(f) && ListsSorted(f) && f[0] == []
    ensures f[1] == [] ==> forall x :: x in Bag(f) ==> x == UINT_MAX
    ensures f[1] != [] ==> IsMin(f[1][0], Bag(f))
    ensures DownInv(Heads(f[1 := Pop(f[1]).1]), |f|, 1)
    ensures ListsSorted(f[1 := Pop(f[1]).1])
    ensures f[1] == [] ==> f[1 := Pop(f[1]).1] == f
    ensures f[1] != [] ==> Bag(f[1 := Pop(f[1]).1]) == Bag(f) - multiset{f[1][0]}
  {
    var root := f[1];
    var t := f[1 := Pop(root).1];
    RootIsLeast(f);
    BagHas(f, 1);
    HeadsUpdate(f, 1, Pop(root).1);
    forall k | 0 <= k < |t|
      ensures Sorted(t[k])
    {
      assert Sorted(f[k]);
    }
    if root != [] {
      BagUpdate(f, 1, root[1..]);
      assert root == [root[0]] + root[1..];
      assert multiset(root) == multiset{root[0] as int} + multiset(root[1..]);
      CancelOne(Bag(t), Bag(f), multiset(root[1..]), root[0]);
    } else {
      assert f[1 := []] == f;
    }
  }

  /**
   * add's last step: pushing n on slot k, whose head is at least n and
   * whose parent's head is at most n, keeps the mound ordered with its
   * lists sorted and adds n to the values held.
   */
  lemma PushAt(f: seq<seq<u32>>, k: int, n: u32)
    requires Ordered(f) && ListsSorted(f) && 1 <= k < |f|
    requires n <= Peek(f[k])
    requires k >= 2 ==> Peek(f[Parent(k)]) <= n
    ensures Ordered(f[k := Push(f[k], n)])
    ensures ListsSorted(f[k := Push(f[k], n)])
    ensures Bag(f[k := Push(f[k], n)]) == Bag(f) + multiset{n as int}
  {
    var x := Push(f[k], n);
    var t := f[k := x];
    HeadsUpdate(f, k, x);
    var s := Heads(f);
    forall i | 2 <= i < |t|
      ensures Heads(t)[Parent(i)] <= Heads(t)[i]
    {
      assert s[Parent(i)] <= s[i];
    }
    forall j | 0 <= j < |t|
      ensures Sorted(t[j])
    {
      assert Sorted(f[j]);
    }
    BagUpdate(f, k, x);
    assert multiset(x) == multiset(f[k]) + multiset{n as int};
    Cancel(Bag(t), Bag(f) + multiset{n as int}, multiset(f[k]));
  }

  /** grow(): a new bottom level of empty nodes keeps the mound ordered with the same values. */
  lemma GrowKeeps(f: seq<seq<u32>>)
    requires Ordered(f) && ListsSorted(f)
    ensures Ordered(f + EmptyLevel(|f|))
    ensures ListsSorted(f + EmptyLevel(|f|))
    ensures Bag(f + EmptyLevel(|f|)) == Bag(f)
  {
    var e := EmptyLevel(|f|);
    var t := f + e;
    var s, h := Heads(f), Heads(t);
    forall i | 2 <= i < |t|
      ensures h[Parent(i)] <= h[i]
    {
      if i < |f| {
        assert s[Parent(i)] <= s[i] && t[i] == f[i] && t[Parent(i)] == f[Parent(i)];
      } else {
        assert t[i] == e[i - |f|] == [];
      }
    }
    forall j | 0 <= j < |t|
      ensures Sorted(t[j])
    {
      if j < |f| {
        assert Sorted(f[j]);
      }
    }
    BagGrow(f, |f|);
  }

  /** add's probe i from the random start `index`: node (index + i) mod 2^b of level b, in 32-bit arithmetic. */
  function Slot(index: u32, i: int, b: nat): int
  {
    (index + i) % 0x1_0000_0000 % Pow2(b)
  }

  /** One of add's 8b probes of the bottom level b finds a node whose head is at least n. */
  ghost predicate ProbeHit(level: seq<seq<u32>>, b: nat, index: u32, n: u32)
    requires |level| == Pow2(b)
  {
    exists i :: 0 <= i < 8 * b && Peek(level[Slot(index, i, b)]) >= n
  }
}

/**
 * mound_RTM_cgl_t (mound/mound_RTM_cgl.hpp), its lock path run by one
 * thread. `levels` holds the allocated levels 0 .. bottom (the source's
 * remaining entries of levels[32] are NULL); each level is an array of
 * nodes, a node being its list. The ghost field `rows` mirrors the arrays'
 * contents level by level, and Flat() lays them out in heap order.
 */
module MoundCgl {
  import opened Powers
  import opened MoundCommon
  import opened BinaryHeap
  import opened MoundTree

  /** grow()'s allocation: a level of `size` nodes, each an empty list. */
  method NewLevel(size: nat) returns (level: array<seq<u32>>)
    ensures fresh(level) && level.Length == size && level[..] == EmptyLevel(size)
  {
    level := new seq<u32>[size];
    var i := 0;
    while i < size
      invariant 0 <= i <= size
      invariant forall j :: 0 <= j < i ==> level[j] == []
    {
      level[i] := [];
      i := i + 1;
    }
  }

  class Mound {
    var levels: seq<array<seq<u32>>>
    var bottom: int
    ghost var rows: seq<seq<seq<u32>>>

    /** Levels 0 .. bottom are allocated, level l has 2^l nodes, and `rows` holds their lists. */
    ghost predicate Shape()
      reads this, levels
    {
      && 0 <= bottom < 32 && |levels| == bottom + 1 && |rows| == |levels| && Sizes(rows)
      && forall l :: 0 <= l < |levels| ==> levels[l][..] == rows[l]
    }

    /** All node lists in slot order. */
    ghost function Flat(): (f: seq<seq<u32>>)
      reads this
    {
      Cat(rows)
    }

    ghost predicate Valid()
      reads this, levels
    {
      Shape() && Ordered(Flat()) && ListsSorted(Flat())
    }

    /** Level l of a well-shaped mound is an array of 2^l nodes; distinct levels are distinct arrays. */
    lemma LevelSize(l: int)
      requires Shape() && 0 <= l < |levels|
      ensures levels[l].Length == Pow2(l) && |Flat()| == Pow2(|levels|)
      ensures forall k :: 0 <= k < |levels| && k != l ==> levels[k] != levels[l]
    {
      assert |levels[l][..]| == |rows[l]|;
      forall k | 0 <= k < |levels| && k != l
        ensures levels[k] != levels[l]
      {
        assert |levels[k][..]| == |rows[k]|;
        if k < l {
          Pow2Monotone(k, l);
        } else {
          Pow2Monotone(l, k);
        }
      }
    }

    /** Node (l, i) is slot 2^l + i of the view. */
    lemma FlatAt(l: int, i: int)
      requires Shape() && 0 <= l < |levels| && 0 <= i < Pow2(l)
      ensures Pow2(l) + i < |Flat()| && Flat()[Pow2(l) + i] == levels[l][i]
    {
      CatAt(rows, l, i);
      assert levels[l][..][i] == rows[l][i];
    }

    /** mound_RTM_cgl_t(): the root level with one empty node. */
    constructor ()
      ensures Valid() && bottom == 0 && Flat() == [[], []] && Bag(Flat()) == multiset{}
    {
      var root := NewLevel(1);
      levels := [root];
      bottom := 0;
      rows := [[[]]];
      new;
      assert rows[..0] == [];
      assert Flat() == [[], []];
      assert Bag(Flat()) == Bag([[]]) + multiset([]);
      assert Bag([[]]) == Bag([]) + multiset([]);
    }

    /** Store list x in node (l, i), which is slot k. */
    method SetNode(l: int, i: int, x: seq<u32>, ghost k: int)
      requires Shape() && 0 <= l < |levels| && 0 <= i < Pow2(l) && k == Pow2(l) + i
      modifies this, levels[l]
      ensures Shape() && levels == old(levels) && bottom == old(bottom)
      ensures k < |Flat()| && Flat() == old(Flat())[k := x]
    {
      LevelSize(l);
      CatSet(rows, l, i, x);
      levels[l][i] := x;
      rows := rows[l := rows[l][i := x]];
    }

    /** Exchange the lists of nodes (l1, i1) and (l2, i2), slots k1 and k2, on different levels. */
    method SwapNodes(l1: int, i1: int, l2: int, i2: int, ghost k1: int, ghost k2: int)
      requires Shape() && 0 <= l1 < |levels| && 0 <= i1 < Pow2(l1) && k1 == Pow2(l1) + i1
      requires 0 <= l2 < |levels| && 0 <= i2 < Pow2(l2) && l1 != l2 && k2 == Pow2(l2) + i2
      modifies this, levels[l1], levels[l2]
      ensures Shape() && levels == old(levels) && bottom == old(bottom)
      ensures k1 < |Flat()| && k2 < |Flat()| && Flat() == Swap(old(Flat()), k1, k2)
    {
      ghost var f := Flat();
      SlotOf(rows, l1, i1, k1);
      SlotOf(rows, l2, i2, k2);
      LevelSize(l1);
      LevelSize(l2);
      var a, b := levels[l1][i1], levels[l2][i2];
      assert a == levels[l1][..][i1] == f[k1] && b == levels[l2][..][i2] == f[k2];
      SetNode(l1, i1, b, k1);
      SetNode(l2, i2, a, k2);
    }

    /**
     * grow(): allocate a level of 2^(bottom+1) empty nodes as the new
     * bottom. levels[] has 32 entries, so the bottom must be below 31.
     */
    method Grow()
      requires Valid() && bottom < 31
      modifies this
      ensures Valid() && bottom == old(bottom) + 1 && levels[..bottom] == old(levels) && fresh(levels[bottom])
      ensures levels[bottom][..] == EmptyLevel(Pow2(bottom))
      ensures Flat() == old(Flat()) + EmptyLevel(old(|Flat()|))
      ensures Bag(Flat()) == old(Bag(Flat()))
    {
      LevelSize(0);
      ghost var f := Flat();
      var size := Pow2(bottom + 1);
      var newlevel := NewLevel(size);
      bottom := bottom + 1;
      levels := levels + [newlevel];
      rows := rows + [EmptyLevel(size)];
      assert rows[..|rows| - 1] == old(rows);
      assert Flat() == f + EmptyLevel(size);
      GrowKeeps(f);
    }

    /**
     * add's search for a leaf: probe 8*bottom bottom-level nodes from the
     * random start `index` (the source draws it from rand_r_32), stopping
     * at the first whose head is at least n.
     */
    method Probe(n: u32, index: u32) returns (found: bool, leaf: int)
      requires Shape()
      ensures found <==> ProbeHit(levels[bottom][..], bottom, index, n)
      ensures found ==> 0 <= leaf < Pow2(bottom) && Peek(levels[bottom][leaf]) >= n
      ensures found ==> exists i :: 0 <= i < 8 * bottom && leaf == Slot(index, i, bottom)
                                    && forall j :: 0 <= j < i ==> Peek(levels[bottom][Slot(index, j, bottom)]) < n
    {
      var b := bottom;
      LevelSize(b);
      var l := 8 * b;
      found, leaf := false, 0;
      var i := 0;
      while i < l
        invariant 0 <= i <= l
        invariant forall j :: 0 <= j < i ==> Peek(levels[b][Slot(index, j, b)]) < n
      {
        var ii := Slot(index, i, b);
        if Peek(levels[b][ii]) >= n {
          found, leaf := true, ii;
          return;
        }
        i := i + 1;
      }
    }

    /**
     * add's binary search on the path from the root down to `leaf`: the
     * root's head is below n and the leaf's is at least n; the result is
     * the node on that path whose head is at least n while its parent's is
     * below n.
     */
    method Search(n: u32, leaf: int) returns (clvl: int, cidx: int)
      requires Shape() && 1 <= bottom && 0 <= leaf < Pow2(bottom)
      requires Peek(rows[0][0]) < n <= Peek(rows[bottom][leaf])
      ensures 1 <= clvl <= bottom && OnPath(leaf, bottom, clvl, cidx)
      ensures cidx / 2 < Pow2(clvl - 1)
      ensures Peek(rows[clvl - 1][cidx / 2]) < n <= Peek(rows[clvl][cidx])
    {
      clvl, cidx := bottom, leaf;
      var plvl, pidx := 0, 0;
      ShrBound(leaf, 0, bottom);
      assert OnPath(leaf, bottom, 0, 0);
      while plvl + 1 != clvl
        invariant 0 <= plvl < clvl <= bottom
        invariant OnPath(leaf, bottom, clvl, cidx) && OnPath(leaf, bottom, plvl, pidx)
        invariant Peek(rows[plvl][pidx]) < n <= Peek(rows[clvl][cidx])
        decreases clvl - plvl
      {
        var mlvl := (clvl + plvl) / 2;
        var midx := Shr(cidx, clvl - mlvl);
        PathAncestor(leaf, bottom, clvl, cidx, mlvl);
        var head := PeekNode(mlvl, midx);
        if n > head {
          plvl, pidx := mlvl, midx;
        } else {
          clvl, cidx := mlvl, midx;
        }
      }
      PathParent(leaf, bottom, clvl, cidx, pidx);
    }

    /** The head of node (l, i), as peek() reads it. */
    method PeekNode(l: int, i: int) returns (h: u32)
      requires Shape() && 0 <= l < |levels| && 0 <= i < Pow2(l)
      ensures h == Peek(rows[l][i])
    {
      assert |levels[l][..]| == |rows[l]|;
      h := Peek(levels[l][i]);
      assert levels[l][..][i] == levels[l][i];
    }

    /**
     * add(n): find a leaf whose head is at least n, growing a level when
     * the probes find none; then push n at the root if it is no larger
     * than the root's head, and otherwise on the node the binary search
     * picks. With the bottom at level 31 a failed probe would grow past
     * levels[31], so there the probes must succeed.
     */
    method Add(n: u32, index: u32)
      requires Valid() && (bottom < 31 || ProbeHit(levels[bottom][..], bottom, index, n))
      modifies this, levels
      ensures Valid() && Bag(Flat()) == old(Bag(Flat())) + multiset{n as int}
      ensures bottom == if old(ProbeHit(levels[bottom][..], bottom, index, n)) then old(bottom) else old(bottom) + 1
      ensures n <= old(Peek(Flat()[1])) ==> Flat()[1] == [n] + old(Flat()[1])
    {
      var found, leaf := Probe(n, index);
      if !found {
        Grow();
        leaf := index % Pow2(bottom);
        assert levels[bottom][..][leaf] == [];
      } else {
        LevelSize(bottom);
        assert levels[bottom][..][leaf] == levels[bottom][leaf];
      }
      Place(n, leaf);
    }

    /**
     * The placement step of add, given a bottom-level node `leaf` whose
     * head is at least n: push n at the root when it is no larger than the
     * root's head, and otherwise on the node found by the binary search,
     * whose parent's head is smaller than n.
     */
    method Place(n: u32, leaf: int)
      requires Valid() && 0 <= leaf < Pow2(bottom) && n <= Peek(rows[bottom][leaf])
      modifies this, levels
      ensures Valid() && levels == old(levels) && bottom == old(bottom)
      ensures Bag(Flat()) == old(Bag(Flat())) + multiset{n as int}
      ensures n <= old(Peek(Flat()[1])) ==> Flat()[1] == [n] + old(Flat()[1])
    {
      ghost var f := Flat();
      CatAt(rows, 0, 0);
      assert levels[0][..][0] == rows[0][0];
      if n <= Peek(levels[0][0]) {
        PushAt(f, 1, n);
        ghost var t := f[1 := Push(f[1], n)];
        SetNode(0, 0, Push(levels[0][0], n), 1);
        assert Flat() == t;
      } else {
        var clvl, cidx := Search(n, leaf);
        ghost var k := Pow2(clvl) + cidx;
        PushBelow(rows, clvl, cidx, n, k);
        var cur := levels[clvl][cidx];
        assert cur == levels[clvl][..][cidx];
        SetNode(clvl, cidx, Push(cur, n), k);
      }
    }

    /**
     * remove(): pop the root and let restore_invariants repair the order.
     * An empty root answers UINT_MAX and changes nothing; the mound then
     * holds no value other than UINT_MAX. Otherwise the answer is a
     * smallest value held, and it leaves the mound.
     */
    method Remove() returns (r: u32)
      requires Valid()
      modifies this, levels
      ensures Valid()
      ensures old(Flat()[1]) == [] ==> && r == UINT_MAX && Bag(Flat()) == old(Bag(Flat()))
                                       && forall x :: x in old(Bag(Flat())) ==> x == UINT_MAX
      ensures old(Flat()[1]) != [] ==> && r == old(Flat()[1][0]) && IsMin(r, old(Bag(Flat())))
                                        && Bag(Flat()) == old(Bag(Flat())) - multiset{r as int}
    {
      ghost var f := Flat();
      ghost var m := Bag(f);
      PopRoot(f);
      FlatAt(0, 0);
      var popped := Pop(levels[0][0]);
      assert popped == Pop(f[1]);
      r := popped.0;
      ghost var t := f[1 := popped.1];
      ghost var mt := Bag(t);
      assert f[1] == [] ==> r == UINT_MAX && mt == m;
      assert f[1] != [] ==> r == f[1][0] && mt == m - multiset{r as int};
      SetNode(0, 0, popped.1, 1);
      assert Flat() == t;
      RestoreInvariants(0, 0, 1);
      assert Bag(Flat()) == mt;
    }

    /**
     * restore_invariants(lvl, idx): while the exempted node (lvl, idx),
     * slot p, is above the bottom and its smaller child (the left one on a
     * tie) has a smaller head, exchange the two lists and move down to the
     * child. On return the order holds everywhere and no value was lost or
     * added.
     */
    method RestoreInvariants(lvl0: int, idx0: int, ghost p0: int)
      requires Shape() && 0 <= lvl0 <= bottom && 0 <= idx0 < Pow2(lvl0) && p0 == Pow2(lvl0) + idx0
      requires Exempt(Flat(), p0, Bag(Flat()))
      modifies this, levels
      ensures Valid() && levels == old(levels) && bottom == old(bottom)
      ensures Bag(Flat()) == old(Bag(Flat()))
    {
      var lvl, idx := lvl0, idx0;
      ghost var p, bag := p0, Bag(Flat());
      while true
        invariant Shape() && levels == old(levels) && bottom == old(bottom)
        invariant 0 <= lvl <= bottom && 0 <= idx < Pow2(lvl) && p == Pow2(lvl) + idx && Exempt(Flat(), p, bag)
        decreases bottom - lvl
      {
        var done, widx, w := RestoreRound(lvl, idx, p, bag);
        if done {
          return;
        }
        lvl, idx, p := lvl + 1, widx, w;
      }
    }

    /**
     * One iteration of restore_invariants' loop at the exempted node
     * (lvl, idx), slot p: at the bottom, or when the picked child's head is
     * not smaller, the order is back (done); otherwise the lists are
     * exchanged and the child (lvl+1, widx), slot w, is the exempted node.
     */
    method RestoreRound(lvl: int, idx: int, ghost p: int, ghost bag: multiset<int>) returns (done: bool, widx: int, ghost w: int)
      requires Shape() && 0 <= lvl <= bottom && 0 <= idx < Pow2(lvl) && p == Pow2(lvl) + idx && Exempt(Flat(), p, bag)
      modifies this, levels
      ensures Shape() && levels == old(levels) && bottom == old(bottom)
      ensures done ==> Valid() && Bag(Flat()) == bag
      ensures !done ==> lvl < bottom && 0 <= widx < Pow2(lvl + 1) && w == Pow2(lvl + 1) + widx && Exempt(Flat(), w, bag)
    {
      LevelSize(0);
      ghost var f := Flat();
      w := p;
      if lvl == bottom {
        NoChildSlots(lvl, idx, p, |f|);
        DownDone(Heads(f), |f|, p);
        return true, idx, w;
      }
      ChildSlots(lvl, idx, bottom + 1, p, |f|);
      w := Winner(f, p);
      ExemptStep(f, p, bag);
      done, widx := DownOne(lvl, idx, p);
    }

    /**
     * One round of restore_invariants at node (lvl, idx), slot p, above the
     * bottom: done, and nothing changes, when the picked child's head is
     * not smaller than the node's; otherwise the two lists are exchanged
     * and the child (lvl+1, widx) is the one exempted next.
     */
    method DownOne(lvl: int, idx: int, ghost p: int) returns (done: bool, widx: int)
      requires Shape() && 0 <= lvl < bottom && 0 <= idx < Pow2(lvl) && p == Pow2(lvl) + idx
      modifies this, levels[lvl], levels[lvl + 1]
      ensures Shape() && levels == old(levels) && bottom == old(bottom)
      ensures 2 * p + 1 < |old(Flat())| && 0 <= widx < Pow2(lvl + 1) && Winner(old(Flat()), p) == Pow2(lvl + 1) + widx
      ensures done <==> Peek(old(Flat())[p]) <= Peek(old(Flat())[Winner(old(Flat()), p)])
      ensures done ==> Flat() == old(Flat())
      ensures !done ==> Flat() == Swap(old(Flat()), p, Winner(old(Flat()), p))
    {
      var clvl, lidx := lvl + 1, 2 * idx;
      ghost var f := Flat();
      LevelSize(0);
      ChildSlots(lvl, idx, bottom + 1, p, |f|);
      FlatAt(lvl, idx);
      FlatAt(clvl, lidx);
      FlatAt(clvl, lidx + 1);
      ghost var w := Winner(f, p);
      var mine := Peek(levels[lvl][idx]);
      var lv := Peek(levels[clvl][lidx]);
      var rv := Peek(levels[clvl][lidx + 1]);
      widx := if rv < lv then lidx + 1 else lidx;
      assert w == Pow2(clvl) + widx;
      var wv := if rv < lv then rv else lv;
      assert Peek(f[p]) == mine && Peek(f[w]) == wv;
      if wv >= mine {
        return true, widx;
      }
      SwapNodes(lvl, idx, clvl, widx, p, w);
      done := false;
    }

    /** get_list_size(lvl, idx): walk the list of node (lvl, idx) counting its cells. */
    method GetListSize(lvl: int, idx: int) returns (count: int)
      requires Shape() && 0 <= lvl < |levels| && 0 <= idx < levels[lvl].Length
      ensures count == |levels[lvl][idx]|
    {
      var curr := levels[lvl][idx];
      count := 0;
      while curr != []
        invariant count + |curr| == |levels[lvl][idx]|
      {
        curr := curr[1..];
        count := count + 1;
      }
    }

    /** get_list_total(lvl, idx): walk the list of node (lvl, idx) summing its values. */
    method GetListTotal(lvl: int, idx: int) returns (total: int)
      requires Shape() && 0 <= lvl < |levels| && 0 <= idx < levels[lvl].Length
      ensures total == Sum(levels[lvl][idx])
    {
      var curr := levels[lvl][idx];
      total := 0;
      while curr != []
        invariant total + Sum(curr) == Sum(levels[lvl][idx])
      {
        total := total + curr[0];
        curr := curr[1..];
      }
    }
  }

  /** The sum of a list's values. */
  function Sum(s: seq<u32>): int
  {
    if |s| == 0 then 0 else s[0] + Sum(s[1..])
  }
}

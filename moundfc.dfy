/**
 * mound_fc_t (mound/mound_fc.hpp), run by one thread: a mound in one
 * array of 1048576 nodes in heap order (node i has children 2i and 2i+1,
 * node 0 is unused). A node keeps the head of its list inline in `value`
 * and the rest in a chain of cells; `counter` is the rightmost node that
 * add has reached.
 *
 * A node is a value here: its inline head and the data of its cells, first
 * cell first. Every node's full list (value, then the cells) ends in a
 * UINT_MAX: a fresh node is (UINT_MAX, no cells), and push moves the old
 * head into a new cell, so that last UINT_MAX is never handed out as a
 * value held. The values a node holds are its full list without that
 * sentinel, and lists of those are the trees of MoundTree, whose lemmas
 * carry the order and the values held.
 */
module MoundFc {
  import opened Powers
  import opened MoundCommon
  import opened BinaryHeap
  import opened MoundTree

  /** The size of the node array. */
  const NODES: int := 1048576

  lemma NodesPow2()
    ensures NODES == Pow2(20)
  {
    assert Pow2(10) == 1024;
  }

  /** 32 - __builtin_clz(x): the number of significant bits of x, its level plus one; a word of k >= 1 bits lies in [2^(k-1), 2^k). */
  function BitLength(x: nat): (k: nat)
    ensures x == 0 ==> k == 0
    ensures x >= 1 ==> k >= 1 && Pow2(k - 1) <= x < Pow2(k)
  {
    if x == 0 then 0 else 1 + BitLength(x / 2)
  }

  /** A word with fewer significant bits is smaller. */
  lemma BitLengthOrder(a: nat, b: nat)
    requires 1 <= a && BitLength(b) < BitLength(a)
    ensures b < a
  {
    if b >= 1 {
      Pow2Le(BitLength(b), BitLength(a) - 1);
    }
  }

  /** Shifting x right by j < its bit length leaves a word of the remaining bits, at least 1 and at most x. */
  lemma {:induction false} ShrBits(x: nat, j: nat)
    requires j < BitLength(x)
    ensures BitLength(Shr(x, j)) == BitLength(x) - j && 1 <= Shr(x, j) <= x
    decreases j
  {
    if j > 0 {
      ShrBits(x / 2, j - 1);
    }
  }

  /** A child has one significant bit more than its parent. */
  lemma ChildBits(p: nat)
    requires 1 <= p
    ensures BitLength(2 * p) == BitLength(p) + 1 && BitLength(2 * p + 1) == BitLength(p) + 1
  {
    assert (2 * p) / 2 == p && (2 * p + 1) / 2 == p;
  }

  /** The children of a node above the level of c, for c in the array, are in the array. */
  lemma ChildrenInRange(p: nat, c: nat)
    requires 1 <= p && BitLength(p) < BitLength(c) && c < NODES
    ensures 2 * p + 1 < NODES
  {
    ChildBits(p);
    NodesPow2();
    if BitLength(c) > 20 {
      Pow2Le(20, BitLength(c) - 1);
    }
    Pow2Le(BitLength(2 * p + 1), 20);
  }

  /** The children of a node on the level of c lie to the right of c. */
  lemma ChildrenBeyond(p: nat, c: nat)
    requires 1 <= p && BitLength(p) == BitLength(c)
    ensures c < 2 * p
  {
    ChildBits(p);
    BitLengthOrder(2 * p, c);
  }

  /**
   * mound_fc_node_t: the inline head `value` and the data of the cells of
   * `list`, first cell first.
   */
  datatype Node = Node(value: u32, list: seq<u32>)
  {
    /** peek(): the inline value. */
    function Peek(): u32
    {
      value
    }

    /** push(n): a new front cell takes the old value and n becomes the value, which a pop takes off again. */
    function Push(n: u32): (x: Node)
      ensures x.Peek() == n && x.Pop() == (n, this)
    {
      Node(n, [value] + list)
    }

    /**
     * pop(): the value; the first cell's data becomes the value and the
     * cell leaves, or, with no cells, the value becomes UINT_MAX.
     */
    function Pop(): (r: (u32, Node))
      ensures r.0 == Peek() && |r.1.list| == if list == [] then 0 else |list| - 1
      ensures Sentinel(this) ==> Sentinel(r.1)
    {
      if list == [] then (value, Node(UINT_MAX, [])) else (value, Node(list[0], list[1..]))
    }
  }

  /** A node as the constructor leaves it. */
  const Fresh: Node := Node(UINT_MAX, [])

  /** The full list of a node ends in UINT_MAX. */
  ghost predicate Sentinel(x: Node)
  {
    (if x.list == [] then x.value else x.list[|x.list| - 1]) == UINT_MAX
  }

  /** The values a node holds: its full list without the last UINT_MAX. */
  function Stored(x: Node): seq<u32>
  {
    if x.list == [] then [] else [x.value] + x.list[..|x.list| - 1]
  }

  /**
   * On a node whose full list ends in UINT_MAX, peek, push and pop are
   * the list operations of a mound node (MoundTree.Peek, Push and Pop) on
   * the values held, push and pop keep the sentinel, and pop undoes push.
   */
  lemma NodeStored(x: Node, n: u32)
    requires Sentinel(x)
    ensures x.Peek() == Peek(Stored(x))
    ensures Sentinel(x.Push(n)) && Stored(x.Push(n)) == Push(Stored(x), n)
    ensures x.Push(n).Pop() == (n, x)
    ensures Sentinel(x.Pop().1) && x.Pop().0 == Pop(Stored(x)).0 && Stored(x.Pop().1) == Pop(Stored(x)).1
  {
    if x.list != [] {
      var l := x.list;
      assert ([x.value] + l)[..|l|] == [x.value] + l[..|l| - 1];
      if |l| > 1 {
        assert l[1..][..|l| - 2] == l[..|l| - 1][1..];
      }
    }
  }

  /** The nodes' lists of values in slot order, node 0 counting as empty. */
  ghost function View(s: seq<Node>): (f: seq<seq<u32>>)
    ensures |f| == |s|
  {
    seq(|s|, i requires 0 <= i < |s| => if i == 0 then [] else Stored(s[i]))
  }

  lemma ViewUpdate(s: seq<Node>, i: int, x: Node)
    requires 1 <= i < |s|
    ensures View(s[i := x]) == View(s)[i := Stored(x)]
  {
  }

  /** Slot i of the view holds node i's values, whose head is the node's value. */
  lemma ViewAt(s: seq<Node>, i: int)
    requires 1 <= i < |s| && Sentinel(s[i])
    ensures View(s)[i] == Stored(s[i]) && Peek(View(s)[i]) == s[i].value
  {
    NodeStored(s[i], 0);
  }

  /** The invariant of an array from the invariant of its view. */
  lemma InvFrom(t: seq<Node>, c: int, g: seq<seq<u32>>)
    requires Cells(t, c) && View(t) == g && ListsSorted(g) && Ordered(g)
    ensures Inv(t, c)
  {
  }

  /** Exempted for an array from the order of its view below node p. */
  lemma ExemptedFrom(t: seq<Node>, c: int, p: int, g: seq<seq<u32>>)
    requires Cells(t, c) && View(t) == g && ListsSorted(g)
    requires 1 <= p && BitLength(p) <= BitLength(c) && DownInv(Heads(g), |t|, p)
    ensures Exempted(t, c, p)
  {
  }

  /** The head of a node with the sentinel, as the mound order reads it, is its value. */
  lemma HeadAt(s: seq<Node>, i: int)
    requires 1 <= i < |s| && Sentinel(s[i])
    ensures Heads(View(s))[i] == s[i].value as int
  {
    NodeStored(s[i], 0);
  }

  /**
   * The array of 1048576 nodes with counter c: every node's full list ends
   * in UINT_MAX, every node right of c is fresh, and each node's values
   * are sorted.
   */
  ghost predicate Shaped(s: seq<Node>, c: int)
  {
    Cells(s, c) && ListsSorted(View(s))
  }

  /** The sentinel and freshness parts of Shaped. */
  ghost predicate Cells(s: seq<Node>, c: int)
  {
    && |s| == NODES && 1 <= c < NODES
    && (forall i :: 1 <= i < |s| ==> Sentinel(s[i]))
    && (forall i :: c < i < |s| ==> s[i] == Fresh)
  }

  /** Writing a node with the sentinel at or left of c keeps the sentinels and the fresh nodes. */
  lemma CellsUpdate(s: seq<Node>, c: int, k: int, x: Node)
    requires Cells(s, c) && 1 <= k <= c && Sentinel(x)
    ensures Cells(s[k := x], c)
  {
  }

  /** The invariant of mound_fc_t: well shaped with heap-ordered heads. */
  ghost predicate Inv(s: seq<Node>, c: int)
  {
    Shaped(s, c) && Ordered(View(s))
  }

  /** What restore_invariants keeps: the order holds except below node p, which is on or above the level of c. */
  ghost predicate Exempted(s: seq<Node>, c: int, p: int)
  {
    && Shaped(s, c) && 1 <= p && BitLength(p) <= BitLength(c)
    && DownInv(Heads(View(s)), |s|, p)
  }

  /** The array the constructor leaves is a mound with no values, counter 1. */
  lemma EmptyMound(s: seq<Node>)
    requires |s| == NODES && forall j :: 1 <= j < |s| ==> s[j] == Fresh
    ensures Inv(s, 1) && Bag(View(s)) == multiset{}
  {
    var e := EmptyLevel(NODES);
    assert View(s) == e;
    forall i | 2 <= i < |e|
      ensures Heads(e)[Parent(i)] <= Heads(e)[i]
    {
    }
    assert [] + e == e;
    BagGrow([], NODES);
    assert Stored(Fresh) == [];
  }

  /**
   * add's push at node k, at or left of c, whose head is at least n and
   * whose parent's head is at most n: the mound stays valid and node k
   * holds n in front of its values.
   */
  lemma PushKeeps(s: seq<Node>, c: int, k: int, n: u32)
    requires Inv(s, c) && 1 <= k <= c && n <= s[k].value
    requires k >= 2 ==> s[Parent(k)].value <= n
    ensures var t := s[k := s[k].Push(n)];
            && Inv(t, c) && Bag(View(t)) == Bag(View(s)) + multiset{n as int}
            && View(t)[k] == [n] + View(s)[k]
  {
    var f := View(s);
    var x := s[k].Push(n);
    var t := s[k := x];
    ViewAt(s, k);
    if k >= 2 {
      ViewAt(s, Parent(k));
    }
    PushAt(f, k, n);
    NodeStored(s[k], n);
    CellsUpdate(s, c, k, x);
    ViewUpdate(s, k, x);
    InvFrom(t, c, f[k := Push(f[k], n)]);
  }

  /**
   * remove's pop at the root: only the root is then exempted. An empty
   * root answers UINT_MAX and changes no value, and then every value held
   * is UINT_MAX; otherwise the answer is the root's first value, a
   * smallest value held, and it leaves.
   */
  lemma PopKeeps(s: seq<Node>, c: int)
    requires Inv(s, c)
    ensures var t := s[1 := s[1].Pop().1];
            && Exempted(t, c, 1)
            && (View(s)[1] == [] ==> && s[1].Pop().0 == UINT_MAX && Bag(View(t)) == Bag(View(s))
                                      && forall x :: x in Bag(View(s)) ==> x == UINT_MAX)
            && (View(s)[1] != [] ==> && s[1].Pop().0 == View(s)[1][0] && IsMin(s[1].Pop().0, Bag(View(s)))
                                      && Bag(View(t)) == Bag(View(s)) - multiset{s[1].Pop().0 as int})
  {
    var f := View(s);
    var x := s[1].Pop().1;
    var t := s[1 := x];
    ViewAt(s, 1);
    NodeStored(s[1], 0);
    assert f[0] == [];
    PopRoot(f);
    var g := f[1 := Pop(f[1]).1];
    CellsUpdate(s, c, 1, x);
    ViewUpdate(s, 1, x);
    assert View(t) == g;
    ExemptedFrom(t, c, 1, g);
  }

  /** restore_invariants stops on the level of c: below it every node is fresh, so the order is back. */
  lemma StopKeeps(s: seq<Node>, c: int, p: int)
    requires Exempted(s, c, p) && BitLength(p) == BitLength(c)
    ensures Inv(s, c)
  {
    var f := View(s);
    ChildrenBeyond(p, c);
    if 2 * p < |s| {
      assert s[2 * p] == Fresh;
      HeadAt(s, 2 * p);
    }
    if 2 * p + 1 < |s| {
      assert s[2 * p + 1] == Fresh;
      HeadAt(s, 2 * p + 1);
    }
    DownDone(Heads(f), |f|, p);
  }

  /** The child of p that restore_invariants picks: the right one only when its head is strictly smaller. */
  function Pick(s: seq<Node>, p: int): (w: int)
    requires 1 <= p && 2 * p + 1 < |s|
    ensures (w == 2 * p || w == 2 * p + 1) && s[w].value <= s[2 * p].value && s[w].value <= s[2 * p + 1].value
  {
    if s[2 * p + 1].value < s[2 * p].value then 2 * p + 1 else 2 * p
  }

  /** The nodes after a pull at p: the picked child is popped and its head pushed on p. */
  ghost function Pulled(s: seq<Node>, p: int): seq<Node>
    requires 1 <= p && 2 * p + 1 < |s|
  {
    var w := Pick(s, p);
    s[w := s[w].Pop().1][p := s[p].Push(s[w].value)]
  }

  /**
   * One round of restore_invariants at node p above the level of c: if
   * the picked child's head is not smaller than p's the order is back;
   * otherwise the pull keeps the values and leaves only the child
   * exempted.
   */
  lemma PullKeeps(s: seq<Node>, c: int, p: int)
    requires Exempted(s, c, p) && BitLength(p) < BitLength(c)
    ensures 2 * p + 1 < |s|
    ensures s[p].value <= s[Pick(s, p)].value ==> Inv(s, c)
    ensures s[Pick(s, p)].value < s[p].value ==> && Exempted(Pulled(s, p), c, Pick(s, p))
                                                 && Bag(View(Pulled(s, p))) == Bag(View(s))
  {
    ChildrenInRange(p, c);
    if s[p].value <= s[Pick(s, p)].value {
      PullStop(s, c, p);
    } else {
      PullMove(s, c, p, Pick(s, p));
    }
  }

  /** A node no larger than both children's heads ends restore_invariants: the order is back. */
  lemma PullStop(s: seq<Node>, c: int, p: int)
    requires Exempted(s, c, p) && 2 * p + 1 < |s|
    requires s[p].value <= s[2 * p].value && s[p].value <= s[2 * p + 1].value
    ensures Inv(s, c)
  {
    var h := Heads(View(s));
    HeadAt(s, p);
    HeadAt(s, 2 * p);
    HeadAt(s, 2 * p + 1);
    DownDone(h, |s|, p);
    assert Ordered(View(s));
  }

  /** The pull of PullKeeps: the picked child w gives its head to p, and only w is exempted afterwards. */
  lemma PullMove(s: seq<Node>, c: int, p: int, w: int)
    requires Exempted(s, c, p) && BitLength(p) < BitLength(c) && 2 * p + 1 < |s|
    requires w == Pick(s, p) && s[w].value < s[p].value
    ensures var t := s[w := s[w].Pop().1][p := s[p].Push(s[w].value)];
            Exempted(t, c, w) && Bag(View(t)) == Bag(View(s))
  {
    var f := View(s);
    ViewAt(s, p);
    ViewAt(s, 2 * p);
    ViewAt(s, 2 * p + 1);
    assert w == Winner(f, p);
    PullUp(f, p, w);
    assert s[w].value < UINT_MAX;
    assert w <= c;
    var v := s[w].value;
    var x := s[w].Pop().1;
    var y := s[p].Push(v);
    var s1 := s[w := x];
    var t := s1[p := y];
    NodeStored(s[w], 0);
    NodeStored(s[p], v);
    var g := f[w := f[w][1..]][p := Push(f[p], f[w][0])];
    CellsUpdate(s, c, w, x);
    CellsUpdate(s1, c, p, y);
    ViewUpdate(s, w, x);
    ViewUpdate(s1, p, y);
    assert View(t) == g;
    ChildBits(p);
    ExemptedFrom(t, c, w, g);
  }

  class Mound {
    const nodes: array<Node>
    var counter: int

    ghost predicate Valid()
      reads this, nodes
    {
      nodes.Length == NODES && Inv(nodes[..], counter)
    }

    /** The values held. */
    ghost function Contents(): multiset<int>
      reads nodes
    {
      Bag(View(nodes[..]))
    }

    /** mound_fc_t(): every node from 1 on fresh, and counter 1. */
    constructor ()
      ensures Valid() && counter == 1 && Contents() == multiset{}
    {
      var a := new Node[NODES];
      var i := 1;
      while i < NODES
        invariant 1 <= i <= NODES
        invariant forall j :: 1 <= j < i ==> a[j] == Fresh
      {
        a[i] := Fresh;
        i := i + 1;
      }
      nodes := a;
      counter := 1;
      EmptyMound(a[..]);
    }

    /**
     * add(n): move counter right past a node whose head is smaller than n
     * (the node after it is fresh, so at most one step), then push n at
     * the root when it is no larger than the root's head, and otherwise on
     * the ancestor of counter that the binary search picks. The array has
     * no node past 1048575, so counter must not be at its end when it has
     * to move.
     */
    method Add(n: u32)
      requires Valid() && (counter + 1 < NODES || n <= nodes[counter].Peek())
      modifies this, nodes
      ensures Valid() && Contents() == old(Contents()) + multiset{n as int}
      ensures counter == if n <= old(nodes[counter].Peek()) then old(counter) else old(counter) + 1
      ensures n <= old(nodes[1].Peek()) ==> View(nodes[..])[1] == [n] + old(View(nodes[..])[1])
    {
      Advance(n);
      Place(n);
    }

    /** add's first loop: counter stops at the first node from it on whose head is at least n. */
    method Advance(n: u32)
      requires Valid() && (counter + 1 < NODES || n <= nodes[counter].Peek())
      modifies this
      ensures Valid() && n <= nodes[counter].Peek()
      ensures counter == if n <= old(nodes[counter].Peek()) then old(counter) else old(counter) + 1
    {
      ghost var c0 := counter;
      while true
        invariant c0 <= counter <= c0 + 1 && counter < NODES
        invariant counter == c0 + 1 ==> nodes[c0].Peek() < n
        decreases NODES - counter
      {
        if nodes[counter].Peek() >= n {
          break;
        }
        counter := counter + 1;
      }
    }

    /** add after the first loop: node `counter` has a head of at least n. */
    method Place(n: u32)
      requires Valid() && n <= nodes[counter].Peek()
      modifies nodes
      ensures Valid() && Contents() == old(Contents()) + multiset{n as int}
      ensures n <= old(nodes[1].Peek()) ==> View(nodes[..])[1] == [n] + old(View(nodes[..])[1])
    {
      ghost var s := nodes[..];
      if n <= nodes[1].Peek() {
        PushKeeps(s, counter, 1, n);
        nodes[1] := nodes[1].Push(n);
        assert nodes[..] == s[1 := s[1].Push(n)];
      } else {
        var cidx, up := Search(n);
        PushKeeps(s, counter, cidx, n);
        nodes[cidx] := nodes[cidx].Push(n);
        assert nodes[..] == s[cidx := s[cidx].Push(n)];
      }
    }

    /**
     * add's binary search on the ancestors of counter: `clvl` and `plvl` count
     * significant bits, and plvl 0 stands for the root, whose head is below
     * n. The result is the ancestor cidx = counter >> up whose head is at
     * least n while its parent's is below n.
     */
    method Search(n: u32) returns (cidx: int, ghost up: nat)
      requires nodes.Length == NODES && 1 <= counter < NODES && nodes[1].Peek() < n <= nodes[counter].Peek()
      ensures 2 <= cidx <= counter && up < BitLength(counter) && cidx == Shr(counter, up)
      ensures nodes[Parent(cidx)].Peek() < n <= nodes[cidx].Peek()
    {
      var pidx, plvl := 1, 0;
      cidx := counter;
      var clvl := BitLength(counter);
      ghost var b := clvl;
      while plvl + 1 != clvl
        invariant 0 <= plvl < clvl && AncestorAt(counter, b, clvl, cidx)
        invariant plvl == 0 ==> pidx == 1
        invariant plvl >= 1 ==> AncestorAt(counter, b, plvl, pidx)
        invariant 1 <= pidx <= counter
        invariant nodes[pidx].Peek() < n <= nodes[cidx].Peek()
        decreases clvl - plvl
      {
        var mlvl := (clvl + plvl) / 2;
        var midx := Shr(cidx, clvl - mlvl);
        AncestorUp(counter, b, clvl, cidx, mlvl);
        if n > nodes[midx].Peek() {
          plvl, pidx := mlvl, midx;
        } else {
          clvl, cidx := mlvl, midx;
        }
      }
      up := b - clvl;
      SearchEnd(counter, b, plvl, pidx, clvl, cidx);
    }

    /**
     * remove(): pop the root and let restore_invariants repair the order.
     * On an empty mound the answer is UINT_MAX and no value changes (every
     * value held is then UINT_MAX); otherwise the answer is a smallest value
     * held, and it leaves the mound.
     */
    method Remove() returns (r: u32)
      requires Valid()
      modifies nodes
      ensures Valid()
      ensures old(View(nodes[..])[1]) == [] ==> && r == UINT_MAX && Contents() == old(Contents())
                                                && forall x :: x in old(Contents()) ==> x == UINT_MAX
      ensures old(View(nodes[..])[1]) != [] ==> && r == old(View(nodes[..])[1][0]) && IsMin(r, old(Contents()))
                                                 && Contents() == old(Contents()) - multiset{r as int}
    {
      ghost var s := nodes[..];
      PopKeeps(s, counter);
      var popped := nodes[1].Pop();
      nodes[1] := popped.1;
      r := popped.0;
      assert nodes[..] == s[1 := s[1].Pop().1];
      RestoreInvariants(1);
    }

    /**
     * restore_invariants(idx): until idx reaches the level of counter, pull
     * the smaller head of idx's children up into idx while it is smaller
     * than idx's head, moving down to that child. On return the order holds
     * everywhere and no value was lost or added.
     */
    method RestoreInvariants(idx0: int)
      requires nodes.Length == NODES && Exempted(nodes[..], counter, idx0)
      modifies nodes
      ensures Valid() && Contents() == old(Contents())
    {
      var idx := idx0;
      while true
        invariant Exempted(nodes[..], counter, idx) && Contents() == old(Contents())
        decreases NODES - idx
      {
        if BitLength(idx) == BitLength(counter) {
          StopKeeps(nodes[..], counter, idx);
          return;
        }
        ghost var s := nodes[..];
        PullKeeps(s, counter, idx);
        var done, widx := PullRound(idx);
        if done {
          return;
        }
        idx := widx;
      }
    }

    /**
     * One round of restore_invariants at node idx: done, and nothing
     * changes, when the picked child's head (the right one only when
     * strictly smaller) is not smaller than idx's head. Otherwise both
     * branches of the source pop that child and push its head on idx (the
     * first reuses the child's first cell for the pushed cell; the second,
     * for a child without cells, cannot happen under the sentinel).
     */
    method PullRound(idx: int) returns (done: bool, widx: int)
      requires nodes.Length == NODES && 1 <= idx && 2 * idx + 1 < NODES
      modifies nodes
      ensures widx == Pick(old(nodes[..]), idx)
      ensures done <==> old(nodes[idx].value) <= old(nodes[widx].value)
      ensures done ==> nodes[..] == old(nodes[..])
      ensures !done ==> nodes[..] == Pulled(old(nodes[..]), idx)
    {
      ghost var s := nodes[..];
      var mine := nodes[idx].Peek();
      var lidx := 2 * idx;
      var ridx := lidx + 1;
      var lv := nodes[lidx].Peek();
      var rv := nodes[ridx].Peek();
      widx := lidx;
      var wv := lv;
      if rv < lv {
        widx := ridx;
        wv := rv;
      }
      if wv >= mine {
        return true, widx;
      }
      var child := nodes[widx];
      nodes[widx] := child.Pop().1;
      nodes[idx] := nodes[idx].Push(wv);
      assert nodes[..] == Pulled(s, idx);
      done := false;
    }
  }

  /** x is the ancestor on level l (counting significant bits) of node c, which has b significant bits. */
  ghost predicate AncestorAt(c: nat, b: nat, l: nat, x: int)
  {
    b == BitLength(c) && 1 <= l <= b && 1 <= x <= c && x == Shr(c, b - l)
  }

  /** A step of add's binary search: shifting the ancestor on level l right by l - m gives the ancestor on level m. */
  lemma AncestorUp(c: nat, b: nat, l: nat, x: nat, m: nat)
    requires AncestorAt(c, b, l, x) && 1 <= m < l
    ensures AncestorAt(c, b, m, Shr(x, l - m))
  {
    ShrTwice(c, b - l, l - m);
    assert b - l + (l - m) == b - m;
    ShrBits(c, b - m);
  }

  /**
   * The end of add's binary search: the two nodes on the path to c are on
   * adjacent levels and the lower is not the root, so they are parent and
   * child.
   */
  lemma SearchEnd(c: nat, b: nat, plvl: nat, pidx: int, clvl: nat, cidx: int)
    requires plvl + 1 == clvl && AncestorAt(c, b, clvl, cidx) && cidx != 1
    requires plvl == 0 ==> pidx == 1
    requires plvl >= 1 ==> AncestorAt(c, b, plvl, pidx)
    ensures 2 <= cidx && pidx == Parent(cidx) && b - clvl < b
  {
    ShrBits(c, b - clvl);
    ShrTwice(c, b - clvl, 1);
    assert b - clvl + 1 == b - plvl;
  }
}

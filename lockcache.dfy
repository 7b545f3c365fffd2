/**
 * sosilcache_t (mindicator/lockcache.hpp): the tree of lockmin.hpp in
 * which every node caches, in slot r of `cache`, the `min` of its child r,
 * and keeps `min` as the least of its cache. A leaf uses slot 0 for its
 * thread's value and holds INT_MAX in the other slots. arrive(n, r) stores
 * n in slot r and, while n is below the node's min, lowers min and arrives
 * at the parent in this node's slot; depart(n, r) stores n in slot r and,
 * if the slot held the min, recomputes min from the cache and departs
 * from the parent with it.
 *
 * The nodes are structures stored in one array; a store to a field of
 * node i is a store of node i with that field replaced. The per-node
 * tatas locks, the CFENCEs and the `tree` back pointer are left out; one
 * thread runs each operation to completion.
 */
module LockCache {
  import opened MindicatorCommon
  import opened MinTree

  /** A node: its cache of its children's minima and the least of them. */
  datatype CNode = CNode(cache: seq<i32>, min: i32)

  /** The node has `way` slots and min is their least value. */
  predicate NodeOk(x: CNode, way: int)
  {
    way >= 2 && |x.cache| == way && x.min == MinSeq(x.cache)
  }

  /** Only slot 0 of a leaf is used. */
  predicate LeafSlots(x: CNode)
  {
    forall r :: 1 <= r < |x.cache| ==> x.cache[r] == TOP
  }

  /** Node c's slot in its parent caches c's min. */
  predicate LinkOk(s: seq<CNode>, way: int, c: int)
    requires way >= 2 && 0 <= c < |s|
  {
    var p, r := Parent(way, c), Rel(way, c);
    0 <= p < |s| && 0 <= r < |s[p].cache| && s[p].cache[r] == s[c].min
  }

  /** The child whose link an operation at slot r of node i has not brought up to date yet; 0 (no child) at a leaf. */
  function Skip(way: int, fl: int, i: int, r: int): int
  {
    if i < fl then FirstChild(way, i) + r else 0
  }

  /** Every node is consistent, every leaf uses only slot 0, and every link but that of skip is up to date. */
  ghost predicate CacheOkBut(s: seq<CNode>, way: int, fl: int, skip: int)
  {
    Shaped(way, fl, |s|) && NodesOk(s, way) && LeavesOk(s, fl) && LinksBut(s, way, skip)
  }

  ghost predicate NodesOk(s: seq<CNode>, way: int)
  {
    forall j :: 0 <= j < |s| ==> NodeOk(s[j], way)
  }

  ghost predicate LeavesOk(s: seq<CNode>, fl: int)
  {
    forall j :: 0 <= j < |s| && fl <= j ==> LeafSlots(s[j])
  }

  ghost predicate LinksBut(s: seq<CNode>, way: int, skip: int)
    requires way >= 2
  {
    forall c :: 1 <= c < |s| && c != skip ==> LinkOk(s, way, c)
  }

  /** The invariant of the tree: CacheOkBut with every link up to date. */
  ghost predicate CacheOk(s: seq<CNode>, way: int, fl: int)
  {
    CacheOkBut(s, way, fl, 0)
  }

  /** The threads' values: slot 0 of each leaf, which is also the leaf's min. */
  ghost function LeafValues(s: seq<CNode>, way: int, fl: int): (r: seq<i32>)
    requires CacheOk(s, way, fl)
    ensures |r| == |s| - fl && forall k :: 0 <= k < |r| ==> r[k] == s[fl + k].cache[0]
    ensures forall k :: 0 <= k < |r| ==> r[k] == s[fl + k].min
  {
    LeafMins(s, way, fl);
    seq(|s| - fl, k requires 0 <= k < |s| - fl => s[fl + k].cache[0])
  }

  /** A leaf keeps its value in slot 0 and TOP in the others, so its min is slot 0. */
  lemma LeafMins(s: seq<CNode>, way: int, fl: int)
    requires CacheOk(s, way, fl)
    ensures forall j :: fl <= j < |s| ==> s[j].min == s[j].cache[0]
  {
    forall j | fl <= j < |s|
      ensures s[j].min == s[j].cache[0]
    {
      MinFirst(s[j].cache);
    }
  }

  /** Each node's min. */
  ghost function Mins(s: seq<CNode>): (m: seq<i32>)
    ensures |m| == |s| && forall j :: 0 <= j < |s| ==> m[j] == s[j].min
  {
    seq(|s|, j requires 0 <= j < |s| => s[j].min)
  }

  /** A sequence whose entries after the first are TOP has the first as its least value. */
  lemma MinFirst(q: seq<i32>)
    requires |q| >= 1 && forall r :: 1 <= r < |q| ==> q[r] == TOP
    ensures MinSeq(q) == q[0]
  {
  }

  /** Raising a slot that does not hold the least value keeps the least value. */
  lemma MinRaiseOther(q: seq<i32>, r: int, n: i32)
    requires 0 <= r < |q| && q[r] != MinSeq(q) && q[r] <= n
    ensures MinSeq(q[r := n]) == MinSeq(q)
  {
    var k :| 0 <= k < |q| && q[k] == MinSeq(q);
    assert q[r := n][k] == MinSeq(q);
    MinRaised(q, q[r := n]);
  }

  /** With every link up to date, the cache of an internal node is its children's minima. */
  lemma CacheKids(s: seq<CNode>, way: int, fl: int, p: int)
    requires CacheOk(s, way, fl) && 0 <= p < fl
    ensures FirstChild(way, p) + way <= |s| && s[p].cache == Kids(Mins(s), way, p)
  {
    ChildrenInside(way, fl, |s|, p);
    forall r | 0 <= r < way
      ensures s[p].cache[r] == Kids(Mins(s), way, p)[r]
    {
      ParentOf(way, p, r);
      assert LinkOk(s, way, FirstChild(way, p) + r);
    }
  }

  /** The nodes' minima form a tree of lockmin.hpp whose leaves are the threads' values. */
  lemma MinsTree(s: seq<CNode>, way: int, fl: int)
    requires CacheOk(s, way, fl)
    ensures MinTreeOk(Mins(s), way, fl) && Mins(s)[fl..] == LeafValues(s, way, fl)
  {
    forall p | 0 <= p < fl
      ensures FirstChild(way, p) + way <= |s| && Mins(s)[p] == MinSeq(Kids(Mins(s), way, p))
    {
      CacheKids(s, way, fl, p);
    }
    LeafMins(s, way, fl);
  }

  /** The root's min is the least of the threads' values. */
  lemma CacheRoot(s: seq<CNode>, way: int, fl: int)
    requires CacheOk(s, way, fl)
    ensures s[0].min == MinSeq(LeafValues(s, way, fl))
  {
    MinsTree(s, way, fl);
    RootIsLeast(Mins(s), way, fl);
  }

  /** Two trees that keep the invariant and agree on the threads' values agree everywhere. */
  lemma CacheUnique(s: seq<CNode>, t: seq<CNode>, way: int, fl: int)
    requires CacheOk(s, way, fl) && CacheOk(t, way, fl) && |s| == |t|
    requires LeafValues(s, way, fl) == LeafValues(t, way, fl)
    ensures s == t
  {
    MinsTree(s, way, fl);
    MinsTree(t, way, fl);
    TreeUnique(Mins(s), Mins(t), way, fl);
    forall j | 0 <= j < |s|
      ensures s[j] == t[j]
    {
      if j < fl {
        CacheKids(s, way, fl, j);
        CacheKids(t, way, fl, j);
      } else {
        assert s[j].cache[0] == LeafValues(s, way, fl)[j - fl];
        assert s[j].cache == t[j].cache;
      }
    }
  }

  /** Storing node i as x, with the same slots as before but slot r, keeps the link of every node but i and i's child r. */
  lemma LinksSet(t: seq<CNode>, u: seq<CNode>, way: int, fl: int, i: int, r: int, x: CNode, skip: int)
    requires Shaped(way, fl, |t|) && 0 <= i < |t| && 0 <= r < way && (fl <= i ==> r == 0) && u == t[i := x]
    requires LinksBut(t, way, skip) && (skip == 0 || skip == i || skip == Skip(way, fl, i, r))
    requires |x.cache| == |t[i].cache| && forall k :: 0 <= k < |x.cache| && k != r ==> x.cache[k] == t[i].cache[k]
    ensures forall c :: 1 <= c < |u| && c != i && c != Skip(way, fl, i, r) ==> LinkOk(u, way, c)
  {
    forall c | 1 <= c < |u| && c != i && c != Skip(way, fl, i, r)
      ensures LinkOk(u, way, c)
    {
      ChildOf(way, c);
      if Parent(way, c) == i && i >= fl {
        ChildrenInside(way, fl, |t|, i);
        MulLe(fl, i, way);
      }
      assert LinkOk(t, way, c);
    }
  }

  /** Storing node i as a consistent node x (using only slot 0 at a leaf) keeps every node consistent and every leaf's spare slots TOP. */
  lemma NodesSet(t: seq<CNode>, way: int, fl: int, i: int, x: CNode)
    requires NodesOk(t, way) && LeavesOk(t, fl) && 0 <= i < |t| && NodeOk(x, way) && (fl <= i ==> LeafSlots(x))
    ensures NodesOk(t[i := x], way) && LeavesOk(t[i := x], fl)
  {
  }

  /** Slot r of node i is the one node i's store changes. */
  predicate SameBut(x: CNode, y: CNode, r: int)
  {
    |x.cache| == |y.cache| && forall k :: 0 <= k < |x.cache| && k != r ==> x.cache[k] == y.cache[k]
  }

  // ---------------------------------------------------------------------
  // arrive(n, r)

  /** What arrive(n, r) at node i expects: the invariant, and n not above slot r (slot 0 at a leaf). */
  ghost predicate ArrivePre(s: seq<CNode>, way: int, fl: int, i: int, n: i32, r: int)
  {
    && CacheOk(s, way, fl) && 0 <= i < |s| && 0 <= r < way && (fl <= i ==> r == 0)
    && r < |s[i].cache| && n <= s[i].cache[r]
  }

  /**
   * What arrive(n, r) at node i leaves from s: node i has n in slot r and
   * min lowered to n; every node other than i and its ancestors is as it
   * was; and everything is consistent but the link of child r of i, which
   * that child brings up to date once the call returns.
   */
  ghost predicate ArrivePost(s: seq<CNode>, t: seq<CNode>, way: int, fl: int, i: int, n: i32, r: int)
    requires way >= 2 && 0 <= i < |s|
  {
    && 0 <= r < |s[i].cache|
    && |t| == |s| && CacheOkBut(t, way, fl, Skip(way, fl, i, r))
    && t[i] == CNode(s[i].cache[r := n], Min(s[i].min, n))
    && forall j {:trigger AncOrSelf(way, j, i)} :: 0 <= j < |s| && !AncOrSelf(way, j, i) ==> t[j] == s[j]
  }

  /** The node i with n in slot r and min lowered to n. */
  function Lowered(x: CNode, r: int, n: i32): (y: CNode)
    requires 0 <= r < |x.cache| && n <= x.cache[r] && |x.cache| >= 2 && x.min == MinSeq(x.cache)
    ensures NodeOk(y, |x.cache|) && SameBut(y, x, r) && y.cache[r] == n && y.min == Min(x.min, n)
  {
    MinLowered(x.cache, x.cache[r := n], n, r);
    CNode(x.cache[r := n], Min(x.min, n))
  }

  /** Where arrive does not go up (n not below min, or the root), storing the slot and min is all of it. */
  lemma ArriveHere(s: seq<CNode>, way: int, fl: int, i: int, n: i32, r: int)
    requires ArrivePre(s, way, fl, i, n, r) && (i == 0 || n >= s[i].min)
    ensures ArrivePost(s, s[i := Lowered(s[i], r, n)], way, fl, i, n, r)
  {
    var x := Lowered(s[i], r, n);
    NodesSet(s, way, fl, i, x);
    LinksSet(s, s[i := x], way, fl, i, r, x, 0);
    if i >= 1 {
      assert LinkOk(s, way, i);
      ChildOf(way, i);
    }
  }

  /** Where arrive goes up, the parent gets what arrive expects, at i's slot. */
  lemma ArriveUp(s: seq<CNode>, way: int, fl: int, i: int, n: i32, r: int)
    requires ArrivePre(s, way, fl, i, n, r) && i >= 1 && n < s[i].min
    ensures ArrivePre(s, way, fl, ParentBelow(way, i), n, Rel(way, i))
  {
    ParentInternal(way, fl, |s|, i);
    ChildOf(way, i);
    assert LinkOk(s, way, i);
  }

  /** After the parent's arrive, the node i's store of n as its min and in slot r is what arrive leaves at i. */
  lemma ArriveStepC(s: seq<CNode>, t: seq<CNode>, way: int, fl: int, i: int, n: i32, r: int)
    requires ArrivePre(s, way, fl, i, n, r) && i >= 1 && n < s[i].min
    requires ArrivePost(s, t, way, fl, ParentBelow(way, i), n, Rel(way, i))
    ensures t[i] == s[i]
    ensures ArrivePost(s, t[i := Lowered(s[i], r, n)], way, fl, i, n, r)
  {
    var p := ParentBelow(way, i);
    if AncOrSelf(way, i, p) {
      AncBelow(way, i, p);
    }
    ChildOf(way, i);
    var x := Lowered(s[i], r, n);
    NodesSet(t, way, fl, i, x);
    LinksSet(t, t[i := x], way, fl, i, r, x, i);
    assert LinkOk(t[i := x], way, i);
  }

  /** Arriving at a leaf keeps the invariant and sets that thread's value, and no other, to n. */
  lemma ArriveLeaf(s: seq<CNode>, t: seq<CNode>, way: int, fl: int, i: int, n: i32)
    requires ArrivePre(s, way, fl, i, n, 0) && fl <= i && ArrivePost(s, t, way, fl, i, n, 0)
    ensures CacheOk(t, way, fl) && LeafValues(t, way, fl) == LeafValues(s, way, fl)[i - fl := n]
  {
    forall j | fl <= j < |s| && j != i
      ensures t[j] == s[j]
    {
      if AncOrSelf(way, j, i) {
        AncInternal(way, fl, |s|, j, i);
      }
    }
  }

  // ---------------------------------------------------------------------
  // depart(n, r)

  /**
   * What depart(n, r) at node i expects: everything consistent but the
   * link of child r of i; n not below slot r; and, at an internal node, n
   * the new min of child r.
   */
  ghost predicate DepartPre(s: seq<CNode>, way: int, fl: int, i: int, n: i32, r: int)
  {
    && Shaped(way, fl, |s|) && 0 <= i < |s| && 0 <= r < way && (fl <= i ==> r == 0)
    && CacheOkBut(s, way, fl, Skip(way, fl, i, r))
    && r < |s[i].cache| && s[i].cache[r] <= n
    && (i < fl ==> FirstChild(way, i) + r < |s| && n == s[FirstChild(way, i) + r].min)
  }

  /** What depart(n, r) at node i leaves from s: the invariant, n in slot r of i, and every node other than i and its ancestors as it was. */
  ghost predicate DepartPost(s: seq<CNode>, t: seq<CNode>, way: int, fl: int, i: int, n: i32, r: int)
    requires 0 <= i < |s|
  {
    && 0 <= r < |s[i].cache|
    && |t| == |s| && CacheOk(t, way, fl)
    && t[i].cache == s[i].cache[r := n]
    && forall j {:trigger AncOrSelf(way, j, i)} :: 0 <= j < |s| && !AncOrSelf(way, j, i) ==> t[j] == s[j]
  }

  /** The link of child r of i holds once slot r has the child's min. */
  lemma LinkClosed(t: seq<CNode>, way: int, fl: int, i: int, r: int)
    requires Shaped(way, fl, |t|) && 0 <= i < fl && 0 <= r < way && FirstChild(way, i) + r < |t|
    requires r < |t[i].cache| && t[i].cache[r] == t[FirstChild(way, i) + r].min
    ensures LinkOk(t, way, Skip(way, fl, i, r))
  {
    ParentOf(way, i, r);
  }

  /**
   * Depart's store of node i, with n in slot r and a consistent min, keeps
   * everything consistent but i's own link, which still holds when min is
   * unchanged.
   */
  lemma DepartStore(s: seq<CNode>, way: int, fl: int, i: int, n: i32, r: int, x: CNode)
    requires DepartPre(s, way, fl, i, n, r) && x.cache == s[i].cache[r := n] && NodeOk(x, way)
    ensures CacheOkBut(s[i := x], way, fl, i)
    ensures i >= 1 && x.min == s[i].min ==> LinkOk(s[i := x], way, i)
  {
    var t := s[i := x];
    NodesSet(s, way, fl, i, x);
    LinksSet(s, t, way, fl, i, r, x, Skip(way, fl, i, r));
    if i < fl {
      ParentOf(way, i, r);
      LinkClosed(t, way, fl, i, r);
    }
    if i >= 1 && x.min == s[i].min {
      assert LinkOk(s, way, i) by {
        if i < fl {
          ParentOf(way, i, r);
        }
      }
      ChildOf(way, i);
    }
  }

  /** A link that holds closes the one gap in the links. */
  lemma LinksJoin(t: seq<CNode>, way: int, c: int)
    requires way >= 2 && LinksBut(t, way, c) && (1 <= c < |t| ==> LinkOk(t, way, c))
    ensures LinksBut(t, way, 0)
  {
  }

  /**
   * Where depart does not go up (the slot did not hold the min, or this is
   * the root), storing the slot, and at the root the recomputed min, is all
   * of it.
   */
  lemma DepartHere(s: seq<CNode>, way: int, fl: int, i: int, n: i32, r: int, m: i32)
    requires DepartPre(s, way, fl, i, n, r)
    requires || (i == 0 && s[i].cache[r] == s[i].min && m == MinSeq(s[i].cache[r := n]))
             || (s[i].cache[r] != s[i].min && m == s[i].min)
    ensures DepartPost(s, s[i := CNode(s[i].cache[r := n], m)], way, fl, i, n, r)
  {
    var x := CNode(s[i].cache[r := n], m);
    if s[i].cache[r] != s[i].min {
      MinRaiseOther(s[i].cache, r, n);
    }
    DepartStore(s, way, fl, i, n, r, x);
    LinksJoin(s[i := x], way, i);
  }

  /** The node i with n in slot r and the min recomputed. */
  function Refreshed(x: CNode, r: int, n: i32): (y: CNode)
    requires 0 <= r < |x.cache|
    ensures y.cache == x.cache[r := n] && y.min == MinSeq(y.cache)
    ensures y.min in y.cache && forall k :: 0 <= k < |y.cache| ==> y.min <= y.cache[k]
    ensures y.min <= n && (y.min == n || y.min in x.cache)
  {
    var c := x.cache[r := n];
    assert c[r] == n;
    assert forall k :: 0 <= k < |c| && k != r ==> c[k] == x.cache[k];
    CNode(c, MinSeq(c))
  }

  /** Where depart goes up, the parent gets what depart expects, at i's slot, with i's new min. */
  lemma DepartUp(s: seq<CNode>, way: int, fl: int, i: int, n: i32, r: int)
    requires DepartPre(s, way, fl, i, n, r) && i >= 1 && s[i].cache[r] == s[i].min
    ensures DepartPre(s[i := Refreshed(s[i], r, n)], way, fl, ParentBelow(way, i), Refreshed(s[i], r, n).min, Rel(way, i))
  {
    var x := Refreshed(s[i], r, n);
    var p := ParentBelow(way, i);
    DepartStore(s, way, fl, i, n, r, x);
    ParentInternal(way, fl, |s|, i);
    ChildOf(way, i);
    assert Skip(way, fl, p, Rel(way, i)) == i;
    assert i != Skip(way, fl, i, r) by {
      if i < fl {
        ParentOf(way, i, r);
      }
    }
    assert LinkOk(s, way, i);
    MinRaised(s[i].cache, x.cache);
  }

  /** What depart leaves from the parent, after refreshing i, is what it should leave from i. */
  lemma DepartChain(s: seq<CNode>, t: seq<CNode>, way: int, fl: int, i: int, n: i32, r: int)
    requires DepartPre(s, way, fl, i, n, r) && i >= 1
    requires DepartPost(s[i := Refreshed(s[i], r, n)], t, way, fl, ParentBelow(way, i), Refreshed(s[i], r, n).min, Rel(way, i))
    ensures DepartPost(s, t, way, fl, i, n, r)
  {
    var p := ParentBelow(way, i);
    if AncOrSelf(way, i, p) {
      AncBelow(way, i, p);
    }
  }

  /** A tree keeping the invariant is what depart(INT_MAX, 0) expects at any leaf. */
  lemma LeafDepartPre(s: seq<CNode>, way: int, fl: int, i: int)
    requires CacheOk(s, way, fl) && fl <= i < |s|
    ensures DepartPre(s, way, fl, i, TOP, 0)
  {
  }

  /** Departing from a leaf sets that thread's value, and no other, to TOP. */
  lemma LeafDepartPost(s: seq<CNode>, t: seq<CNode>, way: int, fl: int, i: int)
    requires CacheOk(s, way, fl) && fl <= i < |s| && DepartPost(s, t, way, fl, i, TOP, 0)
    ensures CacheOk(t, way, fl) && LeafValues(t, way, fl) == LeafValues(s, way, fl)[i - fl := TOP]
  {
    forall j | fl <= j < |s| && j != i
      ensures t[j] == s[j]
    {
      if AncOrSelf(way, j, i) {
        AncInternal(way, fl, |s|, j, i);
      }
    }
  }

  /** A tree of nodes with every slot and every min at INT_MAX keeps the invariant. */
  lemma AllTopCache(s: seq<CNode>, way: int, fl: int)
    requires Shaped(way, fl, |s|) && forall j :: 0 <= j < |s| ==> s[j] == CNode(seq(way, _ => TOP), TOP)
    ensures CacheOk(s, way, fl)
  {
    forall j | 0 <= j < |s|
      ensures NodeOk(s[j], way)
    {
      MinTop(s[j].cache);
    }
    forall c | 1 <= c < |s|
      ensures LinkOk(s, way, c)
    {
      ChildOf(way, c);
      ParentInternal(way, fl, |s|, c);
    }
  }

  class Tree {
    const way: int
    const depth: nat
    /** MAX_THREADS, NUM_NODES and FIRST_LEAF. */
    const maxThreads: int
    const numNodes: int
    const firstLeaf: int
    /** The nodes; the root is at index 0 and the leaves from firstLeaf on. */
    const nodes: array<CNode>

    /** The sizes the template computes from W and D. */
    predicate Sized()
    {
      && way >= 2 && depth >= 1
      && maxThreads == Power(way, depth - 1)
      && numNodes == GeoSum(1, way, depth) && firstLeaf == GeoSum(1, way, depth - 1)
      && Shaped(way, firstLeaf, numNodes) && numNodes == firstLeaf + maxThreads
      && nodes.Length == numNodes
    }

    ghost predicate Valid()
      reads nodes
    {
      Sized() && CacheOk(nodes[..], way, firstLeaf)
    }

    /** The threads' values, thread 0 first. */
    ghost function Leaves(): (r: seq<i32>)
      reads nodes
      requires Valid()
      ensures |r| == maxThreads
    {
      LeafValues(nodes[..], way, firstLeaf)
    }

    /** sosilcache_t(): every min and every cache slot at INT_MAX, so nobody has arrived. */
    constructor (w: int, d: nat)
      requires w >= 2 && d >= 1
      ensures Valid() && way == w && depth == d && fresh(nodes)
      ensures Leaves() == seq(maxThreads, _ => TOP)
    {
      ShapeCounts(w, d);
      way, depth := w, d;
      maxThreads := Power(w, d - 1);
      numNodes := GeoSum(1, w, d);
      firstLeaf := GeoSum(1, w, d - 1);
      var a := new CNode[GeoSum(1, w, d)](_ => CNode(seq(w, _ => 0), 0));
      var i := 0;
      while i < a.Length
        invariant 0 <= i <= a.Length
        invariant forall k :: 0 <= k < i ==> a[k] == CNode(seq(w, _ => TOP), TOP)
        invariant forall k :: i <= k < a.Length ==> |a[k].cache| == w
      {
        a[i] := a[i].(min := TOP);
        var j := 0;
        while j < w
          invariant 0 <= j <= w && |a[i].cache| == w && a[i].min == TOP
          invariant forall k :: 0 <= k < j ==> a[i].cache[k] == TOP
          invariant forall k :: 0 <= k < i ==> a[k] == CNode(seq(w, _ => TOP), TOP)
          invariant forall k :: i < k < a.Length ==> |a[k].cache| == w
        {
          a[i] := a[i].(cache := a[i].cache[j := TOP]);
          j := j + 1;
        }
        assert a[i].cache == seq(w, _ => TOP);
        i := i + 1;
      }
      nodes := a;
      AllTopCache(a[..], w, GeoSum(1, w, d - 1));
    }

    /**
     * getnode(index): thread index's leaf; different threads get different leaves.
     * The arithmetic is the same in every tree; each class has its own member, as
     * each source class does, because it reads this tree's own firstLeaf and size.
     */
    function GetNode(index: int): (i: int)
      requires Sized() && 0 <= index < maxThreads
      ensures IsLeaf(way, firstLeaf, numNodes, i) && i - firstLeaf == index
    {
      firstLeaf + index
    }

    /**
     * arrive(index, n), which is arrive(n, 0) at the thread's leaf: the
     * thread's value becomes n. A thread arrives with a value not above the
     * one it holds (TOP once it has departed).
     */
    method Arrive(index: int, n: i32)
      requires Valid() && 0 <= index < maxThreads && n <= Leaves()[index]
      modifies nodes
      ensures Valid() && Leaves() == old(Leaves())[index := n]
    {
      ghost var s := nodes[..];
      var i := GetNode(index);
      ArriveAt(i, n, 0);
      ArriveLeaf(s, nodes[..], way, firstLeaf, i, n);
    }

    /** The node's arrive(n, rIndex). */
    method ArriveAt(i: int, n: i32, r: int)
      requires Sized() && ArrivePre(nodes[..], way, firstLeaf, i, n, r)
      modifies nodes
      ensures ArrivePost(old(nodes[..]), nodes[..], way, firstLeaf, i, n, r)
      decreases i
    {
      ghost var s, t := nodes[..], nodes[..];
      if n < nodes[i].min {
        if i != 0 {
          ArriveUp(s, way, firstLeaf, i, n, r);
          ArriveAt(ParentBelow(way, i), n, Rel(way, i));
          t := nodes[..];
          ArriveStepC(s, t, way, firstLeaf, i, n, r);
        }
        nodes[i] := nodes[i].(min := n);
      }
      nodes[i] := nodes[i].(cache := nodes[i].cache[r := n]);
      if i != 0 && n < s[i].min {
        assert nodes[..] == t[i := Lowered(s[i], r, n)];
      } else {
        assert nodes[..] == s[i := Lowered(s[i], r, n)];
        ArriveHere(s, way, firstLeaf, i, n, r);
      }
    }

    /** depart(index), which is depart(INT_MAX, 0) at the thread's leaf: the thread's value becomes TOP. */
    method Depart(index: int)
      requires Valid() && 0 <= index < maxThreads
      modifies nodes
      ensures Valid() && Leaves() == old(Leaves())[index := TOP]
    {
      ghost var s := nodes[..];
      var i := GetNode(index);
      LeafDepartPre(s, way, firstLeaf, i);
      DepartAt(i, TOP, 0);
      LeafDepartPost(s, nodes[..], way, firstLeaf, i);
    }

    /** The node's depart(n, rIndex). */
    method DepartAt(i: int, n: i32, r: int)
      requires Sized() && DepartPre(nodes[..], way, firstLeaf, i, n, r)
      modifies nodes
      ensures DepartPost(old(nodes[..]), nodes[..], way, firstLeaf, i, n, r)
      decreases i
    {
      ghost var s := nodes[..];
      var oldCache := nodes[i].cache[r];
      nodes[i] := nodes[i].(cache := nodes[i].cache[r := n]);
      if oldCache == nodes[i].min {
        // the source stores n in the slot a second time here
        nodes[i] := nodes[i].(cache := nodes[i].cache[r := n]);
        assert nodes[i].cache == s[i].cache[r := n];
        var temp := RecomputeMin(i);
        nodes[i] := nodes[i].(min := temp);
        assert nodes[i] == Refreshed(s[i], r, n);
        assert nodes[..] == s[i := Refreshed(s[i], r, n)];
        if i != 0 {
          DepartUp(s, way, firstLeaf, i, n, r);
          DepartAt(ParentBelow(way, i), nodes[i].min, Rel(way, i));
          DepartChain(s, nodes[..], way, firstLeaf, i, n, r);
        } else {
          DepartHere(s, way, firstLeaf, i, n, r, temp);
        }
      } else {
        assert nodes[..] == s[i := CNode(s[i].cache[r := n], s[i].min)];
        DepartHere(s, way, firstLeaf, i, n, r, s[i].min);
      }
    }

    /** The loop of depart: the least value of node i's WAY cache slots. */
    method RecomputeMin(i: int) returns (temp: i32)
      requires 0 <= i < nodes.Length && way >= 2 && |nodes[i].cache| == way
      ensures temp == MinSeq(nodes[i].cache)
    {
      var cache := nodes[i].cache;
      temp := cache[0];
      var k := 1;
      while k < way
        invariant 1 <= k <= way
        invariant temp == MinSeq(cache[0..k])
      {
        if temp > cache[k] {
          temp := cache[k];
        }
        MinSnoc(cache, 0, k);
        k := k + 1;
      }
      assert cache[0..way] == cache;
    }

    /** query(): the root's min, which is the least of the threads' values; TOP exactly when every thread has departed. */
    method Query() returns (r: i32)
      requires Valid()
      ensures r == MinSeq(Leaves())
      ensures r == TOP <==> forall k :: 0 <= k < maxThreads ==> Leaves()[k] == TOP
    {
      r := nodes[0].min;
      CacheRoot(nodes[..], way, firstLeaf);
      MinTop(Leaves());
    }
  }
}

/**
 * sosilminim_t (mindicator/lockmin.hpp): a mindicator kept as a complete
 * WAY-ary tree of DEPTH levels in one array of int32 values, one leaf per
 * thread. arrive(n) lowers the thread's leaf and its ancestors to n, going
 * up while n is below the node's value; depart() puts TOP in the leaf and
 * raises each node on the way up to the least value of its children, until
 * a node need not change. The root is the least value of the leaves.
 *
 * The per-node tatas locks and the `tree` back pointer are left out; one
 * thread runs each operation to completion.
 */
module LockMin {
  import opened MindicatorCommon
  import opened MinTree

  /** The values once n has arrived at node i: i and each of its ancestors lowered to n, the rest as they were. */
  ghost function Arrived(s: seq<i32>, way: int, i: int, n: i32): (t: seq<i32>)
    requires way >= 2 && i >= 0
    ensures |t| == |s|
    ensures forall j :: 0 <= j < |s| ==> t[j] == if AncOrSelf(way, j, i) then Min(s[j], n) else s[j]
  {
    seq(|s|, j requires 0 <= j < |s| => if AncOrSelf(way, j, i) then Min(s[j], n) else s[j])
  }

  /** Lowering node i (below n already on its parent) after having lowered its ancestors is lowering i and its ancestors. */
  lemma ArriveStep(s: seq<i32>, way: int, i: int, n: i32)
    requires way >= 2 && 1 <= i < |s| && n < s[i]
    ensures Arrived(s, way, ParentBelow(way, i), n)[i := n] == Arrived(s, way, i, n)
  {
    var p := ParentBelow(way, i);
    if AncOrSelf(way, i, p) {
      AncBelow(way, i, p);
    }
  }

  /** At the root, arriving lowers the root alone. */
  lemma ArriveRoot(s: seq<i32>, way: int, n: i32)
    requires way >= 2 && 1 <= |s| && n < s[0]
    ensures s[0 := n] == Arrived(s, way, 0, n)
  {
  }

  /** A node already at most n has ancestors at most n: arriving changes nothing. */
  lemma ArriveNoop(s: seq<i32>, way: int, fl: int, i: int, n: i32)
    requires MinTreeOk(s, way, fl) && 0 <= i < |s| && s[i] <= n
    ensures Arrived(s, way, i, n) == s
  {
    forall j | 0 <= j < |s| && AncOrSelf(way, j, i)
      ensures Min(s[j], n) == s[j]
    {
      AncLe(s, way, fl, j, i);
    }
  }

  /** Arriving at a leaf keeps the invariant and sets that leaf, and no other, to the smaller of its value and n. */
  lemma ArriveKeeps(s: seq<i32>, way: int, fl: int, i: int, n: i32)
    requires MinTreeOk(s, way, fl) && fl <= i < |s|
    ensures MinTreeOk(Arrived(s, way, i, n), way, fl)
    ensures Arrived(s, way, i, n)[fl..] == s[fl..][i - fl := Min(s[i], n)]
  {
    var t := Arrived(s, way, i, n);
    forall p | 0 <= p < fl
      ensures FirstChild(way, p) + way <= |t| && t[p] == MinSeq(Kids(t, way, p))
    {
      ArriveKeepsAt(s, way, fl, i, n, p);
    }
    forall j | fl <= j < |s| && j != i
      ensures t[j] == s[j]
    {
      if AncOrSelf(way, j, i) {
        AncInternal(way, fl, |s|, j, i);
      }
    }
    assert t[fl..] == s[fl..][i - fl := Min(s[i], n)];
  }

  /** ArriveKeeps at internal node p: lowered with a child if it is above the leaf, untouched with its children otherwise. */
  lemma ArriveKeepsAt(s: seq<i32>, way: int, fl: int, i: int, n: i32, p: int)
    requires MinTreeOk(s, way, fl) && fl <= i < |s| && 0 <= p < fl
    ensures FirstChild(way, p) + way <= |s|
    ensures Arrived(s, way, i, n)[p] == MinSeq(Kids(Arrived(s, way, i, n), way, p))
  {
    var t := Arrived(s, way, i, n);
    ChildrenInside(way, fl, |s|, p);
    var a, b := Kids(s, way, p), Kids(t, way, p);
    if AncOrSelf(way, p, i) {
      var c := PathChild(way, p, i);
      ChildOf(way, c);
      MinLowered(a, b, n, Rel(way, c));
    } else {
      forall k | 0 <= k < way
        ensures b[k] == a[k]
      {
        ParentOf(way, p, k);
        if AncOrSelf(way, FirstChild(way, p) + k, i) {
          AncParent(way, FirstChild(way, p) + k, i);
        }
      }
      assert a == b;
    }
  }

  /** mvc in depart: the least value of i's children, TOP at a leaf. */
  ghost function Target(s: seq<i32>, way: int, fl: int, i: int): i32
    requires Shaped(way, fl, |s|) && 0 <= i < |s|
  {
    if i >= fl then TOP
    else
      ChildrenInside(way, fl, |s|, i);
      MinSeq(Kids(s, way, i))
  }

  /**
   * What depart finds at node i: every internal node but i holds the least
   * value of its children, and i holds at most that of its own.
   */
  ghost predicate DepartPre(s: seq<i32>, way: int, fl: int, i: int)
  {
    && Shaped(way, fl, |s|) && 0 <= i < |s|
    && (forall q {:trigger Kids(s, way, q)} :: 0 <= q < fl && q != i ==>
          FirstChild(way, q) + way <= |s| && s[q] == MinSeq(Kids(s, way, q)))
    && s[i] <= Target(s, way, fl, i)
  }

  /**
   * What depart leaves from s: the invariant everywhere, i at its target,
   * and every node other than i and its ancestors as it was.
   */
  ghost predicate DepartPost(s: seq<i32>, t: seq<i32>, way: int, fl: int, i: int)
    requires Shaped(way, fl, |s|) && 0 <= i < |s|
  {
    && |t| == |s| && MinTreeOk(t, way, fl)
    && t[i] == Target(s, way, fl, i)
    && forall j :: 0 <= j < |s| && !AncOrSelf(way, j, i) ==> t[j] == s[j]
  }

  /** Once i is raised to its target, depart finds its parent as it expects. */
  lemma DepartStep(s: seq<i32>, way: int, fl: int, i: int)
    requires DepartPre(s, way, fl, i) && i >= 1 && s[i] < Target(s, way, fl, i)
    ensures DepartPre(s[i := Target(s, way, fl, i)], way, fl, ParentBelow(way, i))
  {
    var p, t := ParentBelow(way, i), s[i := Target(s, way, fl, i)];
    forall q | 0 <= q < fl && q != p
      ensures FirstChild(way, q) + way <= |t| && t[q] == MinSeq(Kids(t, way, q))
    {
      DepartStepAt(s, way, fl, i, q);
    }
    ParentInternal(way, fl, |s|, i);
    ChildrenInside(way, fl, |s|, p);
    ChildOf(way, i);
    assert s[p] == MinSeq(Kids(s, way, p));
    RaiseOne(s, way, p, i, Target(s, way, fl, i));
  }

  /** Raising one node does not lower the least value of any node's children. */
  lemma RaiseOne(s: seq<i32>, way: int, p: int, i: int, v: i32)
    requires way >= 2 && p >= 0 && FirstChild(way, p) + way <= |s| && 0 <= i < |s| && s[i] <= v
    ensures MinSeq(Kids(s, way, p)) <= MinSeq(Kids(s[i := v], way, p))
  {
    var a, b := Kids(s, way, p), Kids(s[i := v], way, p);
    forall k | 0 <= k < way
      ensures a[k] <= b[k]
    {
      MulLe(0, p, way);
    }
    MinRaised(a, b);
  }

  /** Raising i to its target leaves every internal node but its parent holding the least of its children. */
  lemma DepartStepAt(s: seq<i32>, way: int, fl: int, i: int, q: int)
    requires DepartPre(s, way, fl, i) && i >= 1 && 0 <= q < fl && q != ParentBelow(way, i)
    ensures FirstChild(way, q) + way <= |s|
    ensures s[i := Target(s, way, fl, i)][q] == MinSeq(Kids(s[i := Target(s, way, fl, i)], way, q))
  {
    var t := s[i := Target(s, way, fl, i)];
    ChildrenInside(way, fl, |s|, q);
    forall k | 0 <= k < way
      ensures Kids(t, way, q)[k] == Kids(s, way, q)[k]
    {
      ParentOf(way, q, k);
    }
    assert Kids(t, way, q) == Kids(s, way, q);
  }

  /** What depart leaves from the parent, after raising i, is what it should leave from i. */
  lemma DepartChain(s: seq<i32>, t: seq<i32>, way: int, fl: int, i: int)
    requires Shaped(way, fl, |s|) && 1 <= i < |s|
    requires DepartPost(s[i := Target(s, way, fl, i)], t, way, fl, ParentBelow(way, i))
    ensures DepartPost(s, t, way, fl, i)
  {
    var p := ParentBelow(way, i);
    if AncOrSelf(way, i, p) {
      AncBelow(way, i, p);
    }
  }

  /** At the root, depart raises the root alone. */
  lemma DepartRoot(s: seq<i32>, way: int, fl: int)
    requires DepartPre(s, way, fl, 0) && s[0] < Target(s, way, fl, 0)
    ensures DepartPost(s, s[0 := Target(s, way, fl, 0)], way, fl, 0)
  {
    var t := s[0 := Target(s, way, fl, 0)];
    forall q | 0 <= q < fl
      ensures FirstChild(way, q) + way <= |t| && t[q] == MinSeq(Kids(t, way, q))
    {
      ChildrenInside(way, fl, |s|, q);
      MulLe(0, q, way);
      assert Kids(t, way, q) == Kids(s, way, q);
    }
  }

  /** A node already at its target ends depart: nothing changes. */
  lemma DepartNoop(s: seq<i32>, way: int, fl: int, i: int)
    requires DepartPre(s, way, fl, i) && s[i] >= Target(s, way, fl, i)
    ensures DepartPost(s, s, way, fl, i)
  {
    forall q | 0 <= q < fl
      ensures FirstChild(way, q) + way <= |s| && s[q] == MinSeq(Kids(s, way, q))
    {
      ChildrenInside(way, fl, |s|, q);
    }
  }

  /** A tree keeping the invariant is what depart expects at any leaf. */
  lemma LeafDepartPre(s: seq<i32>, way: int, fl: int, i: int)
    requires MinTreeOk(s, way, fl) && fl <= i < |s|
    ensures DepartPre(s, way, fl, i)
  {
    forall q | 0 <= q < fl && q != i
      ensures FirstChild(way, q) + way <= |s| && s[q] == MinSeq(Kids(s, way, q))
    {
      ChildrenInside(way, fl, |s|, q);
    }
  }

  /** Departing from a leaf sets it, and no other leaf, to TOP. */
  lemma LeafDepartPost(s: seq<i32>, t: seq<i32>, way: int, fl: int, i: int)
    requires Shaped(way, fl, |s|) && fl <= i < |s| && DepartPost(s, t, way, fl, i)
    ensures MinTreeOk(t, way, fl) && t[fl..] == s[fl..][i - fl := TOP]
  {
    forall j | fl <= j < |s| && j != i
      ensures t[j] == s[j]
    {
      if AncOrSelf(way, j, i) {
        AncInternal(way, fl, |s|, j, i);
      }
    }
    assert t[fl..] == s[fl..][i - fl := TOP];
  }

  class Tree {
    const way: int
    const depth: nat
    /** MAX_THREADS, NUM_NODES and FIRST_LEAF. */
    const maxThreads: int
    const numNodes: int
    const firstLeaf: int
    /** The nodes' `value` fields; the root is at index 0 and the leaves from firstLeaf on. */
    const values: array<i32>

    /** The sizes the template computes from W and D. */
    predicate Sized()
    {
      && way >= 2 && depth >= 1
      && maxThreads == Power(way, depth - 1)
      && numNodes == GeoSum(1, way, depth) && firstLeaf == GeoSum(1, way, depth - 1)
      && Shaped(way, firstLeaf, numNodes) && numNodes == firstLeaf + maxThreads
      && values.Length == numNodes
    }

    ghost predicate Valid()
      reads values
    {
      Sized() && MinTreeOk(values[..], way, firstLeaf)
    }

    /** The leaves' values, thread 0 first. */
    ghost function Leaves(): (r: seq<i32>)
      reads values
      requires Sized()
      ensures |r| == maxThreads
    {
      values[firstLeaf..]
    }

    /** sosilminim_t(): every node at INT_MAX, so nobody has arrived. */
    constructor (w: int, d: nat)
      requires w >= 2 && d >= 1
      ensures Valid() && way == w && depth == d && fresh(values)
      ensures Leaves() == seq(maxThreads, _ => TOP)
    {
      ShapeCounts(w, d);
      way, depth := w, d;
      maxThreads := Power(w, d - 1);
      numNodes := GeoSum(1, w, d);
      firstLeaf := GeoSum(1, w, d - 1);
      var a := new i32[GeoSum(1, w, d)];
      var i := 0;
      while i < a.Length
        invariant 0 <= i <= a.Length
        invariant forall j :: 0 <= j < i ==> a[j] == TOP
      {
        a[i] := TOP;
        i := i + 1;
      }
      values := a;
      AllTop(a[..], w, GeoSum(1, w, d - 1));
    }

    /**
     * getnode(index): thread index's leaf; different threads get different leaves.
     * The arithmetic is the same in every tree; each class has its own member, as
     * each source class does, because it reads this tree's own firstLeaf and size.
     */
    function GetNode(index: int): (i: int)
      requires Sized() && 0 <= index < maxThreads
      ensures IsLeaf(way, firstLeaf, numNodes, i) && i - firstLeaf == index
    {
      firstLeaf + index
    }

    /** arrive(index, n): the thread's leaf becomes the smaller of its value and n; the invariant holds again. */
    method Arrive(index: int, n: i32)
      requires Valid() && 0 <= index < maxThreads
      modifies values
      ensures Valid() && Leaves() == old(Leaves())[index := Min(old(Leaves())[index], n)]
    {
      ghost var s := values[..];
      var i := GetNode(index);
      ArriveAt(i, n);
      ArriveKeeps(s, way, firstLeaf, i, n);
      assert values[firstLeaf..] == values[..][firstLeaf..];
      assert old(values[firstLeaf..]) == s[firstLeaf..];
    }

    /**
     * The node's arrive(n): if n is below the node's value, arrive at the
     * parent first (unless this is the root), then store n.
     */
    method ArriveAt(i: int, n: i32)
      requires Sized() && MinTreeOk(values[..], way, firstLeaf) && 0 <= i < numNodes
      modifies values
      ensures values[..] == Arrived(old(values[..]), way, i, n)
      decreases i
    {
      ghost var s := values[..];
      if n < values[i] {
        if i != 0 {
          ArriveAt(ParentBelow(way, i), n);
          ArriveStep(s, way, i, n);
        } else {
          ArriveRoot(s, way, n);
        }
        values[i] := n;
      } else {
        ArriveNoop(s, way, firstLeaf, i, n);
      }
    }

    /** depart(index): the thread's leaf becomes TOP; the invariant holds again. */
    method Depart(index: int)
      requires Valid() && 0 <= index < maxThreads
      modifies values
      ensures Valid() && Leaves() == old(Leaves())[index := TOP]
    {
      ghost var s := values[..];
      var i := GetNode(index);
      LeafDepartPre(s, way, firstLeaf, i);
      DepartAt(i);
      LeafDepartPost(s, values[..], way, firstLeaf, i);
      assert values[firstLeaf..] == values[..][firstLeaf..];
      assert old(values[firstLeaf..]) == s[firstLeaf..];
    }

    /**
     * The node's depart(): mvc is TOP at a leaf and the least child value
     * otherwise; if the node's value is below mvc it takes mvc and, unless
     * it is the root, its parent departs too.
     */
    method DepartAt(i: int)
      requires Sized() && DepartPre(values[..], way, firstLeaf, i)
      modifies values
      ensures DepartPost(old(values[..]), values[..], way, firstLeaf, i)
      decreases i
    {
      ghost var s := values[..];
      var mvc: i32;
      if firstLeaf <= i {
        mvc := TOP;
      } else {
        mvc := MinChildren(i);
      }
      if values[i] < mvc {
        values[i] := mvc;
        if i != 0 {
          DepartStep(s, way, firstLeaf, i);
          DepartAt(ParentBelow(way, i));
          DepartChain(s, values[..], way, firstLeaf, i);
        } else {
          DepartRoot(s, way, firstLeaf);
        }
      } else {
        DepartNoop(s, way, firstLeaf, i);
      }
    }

    /** The loop of depart: the least value among the WAY children of internal node i. */
    method MinChildren(i: int) returns (mvc: i32)
      requires Sized() && 0 <= i < firstLeaf
      ensures mvc == Target(values[..], way, firstLeaf, i)
    {
      ChildrenInside(way, firstLeaf, numNodes, i);
      MulLe(0, i, way);
      var begin := FirstChild(way, i);
      var end := begin + way;
      mvc := values[begin];
      var c := begin + 1;
      while c < end
        invariant begin < c <= end
        invariant mvc == MinSeq(values[begin..c])
      {
        var temp := values[c];
        if mvc > temp {
          mvc := temp;
        }
        MinSnoc(values[..], begin, c);
        c := c + 1;
      }
      assert values[begin..end] == Kids(values[..], way, i);
    }

    /** query(): the root's value, which is the least leaf; TOP exactly when every thread has departed. */
    method Query() returns (r: i32)
      requires Valid()
      ensures r == MinSeq(Leaves())
      ensures r == TOP <==> forall k :: 0 <= k < maxThreads ==> Leaves()[k] == TOP
    {
      r := values[0];
      RootIsLeast(values[..], way, firstLeaf);
      assert values[firstLeaf..] == values[..][firstLeaf..];
      MinTop(Leaves());
    }
  }
}

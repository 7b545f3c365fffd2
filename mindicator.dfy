/**
 * Mindicator<WAY, DEPTH, NODE> (mindicator/Mindicator.hpp): the W-way tree
 * of depth D stored in one array, root at index 0 and the leaves, one per
 * thread, from FIRST_LEAF on. The constructor sets every node's word to
 * (STEADY, version 0, INT_MAX) and wires it to its parent and its first
 * and last child; query reads the root's minimum.
 *
 * Node pointers are indices into the array, and NULL is -1. A node's word
 * and links are one structure stored in the array, so a store to one of
 * its fields is a store of the node with that field replaced.
 */
module Mindicator {
  import opened MindicatorCommon

  /** NULL, as a node index. */
  const NULL: int := -1

  /** A node: its word and its my_parent, first_child and last_child pointers. */
  datatype MNode = MNode(word: Word, parent: int, firstChild: int, lastChild: int)

  /** The state of the node array after the constructor: every word fresh, every node linked as the index arithmetic says, the root without a parent. */
  ghost predicate Wired(s: seq<MNode>, way: int)
    requires way >= 2
  {
    && |s| >= 1
    && (forall i :: 0 <= i < |s| ==> s[i].word == Word(STEADY, 0, TOP))
    && (forall i :: 0 <= i < |s| ==> s[i].firstChild == FirstChild(way, i) && s[i].lastChild == FirstChild(way, i) + way - 1)
    && (forall i :: 1 <= i < |s| ==> s[i].parent == Parent(way, i))
    && s[0].parent == NULL
  }

  /** Every node but the root points at an internal parent, and is one of the children that parent points at. */
  lemma WiredParent(s: seq<MNode>, way: int, fl: int, c: int)
    requires way >= 2 && Wired(s, way) && Shaped(way, fl, |s|) && 1 <= c < |s|
    ensures 0 <= s[c].parent < fl && s[s[c].parent].firstChild <= c <= s[s[c].parent].lastChild
  {
    ChildOf(way, c);
    ParentInternal(way, fl, |s|, c);
  }

  /** Every child an internal node points at is in the array and points back at it. */
  lemma WiredChildren(s: seq<MNode>, way: int, fl: int, p: int, c: int)
    requires way >= 2 && Wired(s, way) && Shaped(way, fl, |s|) && 0 <= p < fl
    requires s[p].firstChild <= c <= s[p].lastChild
    ensures 0 < c < |s| && s[c].parent == p
  {
    ChildrenInside(way, fl, |s|, p);
    ParentOf(way, p, c - FirstChild(way, p));
  }

  /** A node is a leaf exactly when the children it points at are past the end of the array. */
  lemma WiredLeaf(s: seq<MNode>, way: int, fl: int, i: int)
    requires way >= 2 && Wired(s, way) && Shaped(way, fl, |s|) && 0 <= i < |s|
    ensures IsLeaf(way, fl, |s|, i) <==> s[i].lastChild >= |s|
  {
    ChildrenInside(way, fl, |s|, i);
  }

  class Tree {
    const way: int
    const depth: nat
    /** NUM_NODES and FIRST_LEAF. */
    const numNodes: int
    const firstLeaf: int
    const nodes: array<MNode>

    /** The sizes the template computes from WAY and DEPTH. */
    predicate Sized()
    {
      && way >= 2 && depth >= 1
      && numNodes == GeoSum(1, way, depth) && firstLeaf == GeoSum(1, way, depth - 1)
      && Shaped(way, firstLeaf, numNodes) && nodes.Length == numNodes
    }

    /**
     * Mindicator(): for each node in order, min = TOP, steady = STEADY,
     * ver = 0, my_parent = get_parent, first_child = children and
     * last_child = children + WAY - 1; then the root's parent is NULL.
     * The array starts zeroed, as the storage of a new object is here.
     */
    constructor (w: int, d: nat)
      requires w >= 2 && d >= 1
      ensures Sized() && way == w && depth == d && fresh(nodes)
      ensures Wired(nodes[..], way)
    {
      ShapeCounts(w, d);
      way, depth := w, d;
      numNodes := GeoSum(1, w, d);
      firstLeaf := GeoSum(1, w, d - 1);
      var a := new MNode[GeoSum(1, w, d)](_ => MNode(Word(0, 0, 0), 0, 0, 0));
      var i := 0;
      while i < a.Length
        invariant 0 <= i <= a.Length
        invariant forall k :: 0 <= k < i ==> a[k] == MNode(Word(STEADY, 0, TOP), Parent(w, k), FirstChild(w, k), FirstChild(w, k) + w - 1)
      {
        a[i] := a[i].(word := a[i].word.(min := TOP));
        a[i] := a[i].(word := a[i].word.(steady := STEADY));
        a[i] := a[i].(word := a[i].word.(ver := 0));
        a[i] := a[i].(parent := Parent(w, i));
        a[i] := a[i].(firstChild := FirstChild(w, i));
        a[i] := a[i].(lastChild := FirstChild(w, i) + w - 1);
        i := i + 1;
      }
      a[0] := a[0].(parent := NULL);
      nodes := a;
    }

    /** getnode(index): the leaf of thread index, which is a leaf exactly when index is below the number of threads. */
    function GetNode(index: int): (i: int)
      requires Sized()
      ensures i - firstLeaf == index
      ensures IsLeaf(way, firstLeaf, numNodes, i) <==> 0 <= index < numNodes - firstLeaf
    {
      firstLeaf + index
    }

    /** is_leaf(s): FIRST_LEAF <= index < NUM_NODES, which on the wired array says that s has no children in it. */
    function IsLeafNode(i: int): (r: bool)
      reads nodes
      requires Sized() && Wired(nodes[..], way) && 0 <= i < numNodes
      ensures r <==> nodes[i].lastChild >= numNodes
    {
      WiredLeaf(nodes[..], way, firstLeaf, i);
      firstLeaf <= i && i < numNodes
    }

    /** query(): the root's min, which is INT_MAX on the tree the constructor builds. */
    function Query(): (r: i32)
      reads nodes
      requires Sized()
      ensures Wired(nodes[..], way) ==> r == TOP
    {
      nodes[0].word.min
    }
  }
}

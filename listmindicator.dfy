/**
 * sosillc_t (mindicator/list.hpp, list.cpp): a mindicator kept as a
 * doubly linked list of the arrived values in non-decreasing order,
 * between a head sentinel and a tail sentinel holding INT_MAX, with `min`
 * caching the first value after the head. Each thread links its one
 * thread-local node in on arrive and unlinks it on depart; here that node
 * is a parameter. The tatas lock and the CFENCE are left out; one thread
 * runs each operation to completion.
 */
module ListMindicator {
  import opened MindicatorCommon
  import opened MoundCommon
  import opened ListSeq
  import opened MinTree

  /** sosillc_node_t. A thread's node starts with prev and next NULL, as thread-local storage does. */
  class LNode {
    var value: i32
    var next: LNode?
    var prev: LNode?

    constructor ()
      ensures next == null && prev == null
    {
      value := 0;
      next := null;
      prev := null;
    }
  }

  /** No node occurs twice. */
  ghost predicate Distinct(s: seq<LNode>)
  {
    forall i, j :: 0 <= i < j < |s| ==> s[i] != s[j]
  }

  /** Each node's next is the node after it and each node's prev the node before it. */
  ghost predicate Linked(s: seq<LNode>)
    reads s
  {
    && (forall k {:trigger s[k].next} :: 0 <= k < |s| - 1 ==> s[k].next == s[k + 1])
    && (forall k {:trigger s[k].prev} :: 1 <= k < |s| ==> s[k].prev == s[k - 1])
  }

  /** The values of a run of nodes, in list order. */
  ghost function ValuesOf(s: seq<LNode>): (r: seq<int>)
    reads s
    ensures |r| == |s| && forall k :: 0 <= k < |s| ==> r[k] == s[k].value
  {
    seq(|s|, k reads s requires 0 <= k < |s| => s[k].value as int)
  }

  /** Where arrive(n) links its node in a sorted run: after every value below n, before the first one that is not. */
  function InsertPos(q: seq<int>, n: int): (k: int)
    ensures 0 <= k <= |q|
    ensures forall j :: 0 <= j < k ==> q[j] < n
    ensures k < |q| ==> n <= q[k]
    decreases |q|
  {
    if |q| == 0 || n <= q[0] then 0 else 1 + InsertPos(q[1..], n)
  }

  /**
   * The whole list s, head sentinel first and tail sentinel last: its
   * nodes are distinct and doubly linked, the ends point at NULL, and the
   * values after the head are the sorted values q followed by the tail's
   * INT_MAX.
   */
  ghost predicate ListOk(s: seq<LNode>, q: seq<int>)
    reads s
  {
    && |s| >= 2 && Distinct(s) && Linked(s)
    && s[0].prev == null && s[|s| - 1].next == null
    && ValuesOf(s)[1..] == q + [TOP] && Sorted(q)
  }

  /** The first value after the head, which is what min caches: the least of q, or INT_MAX when q is empty. */
  function FirstOr(q: seq<int>): (m: int)
    ensures q == [] ==> m == TOP
    ensures q != [] ==> m == q[0]
  {
    (q + [TOP])[0]
  }

  /** Where x is in s. */
  ghost function Position(s: seq<LNode>, x: LNode): (k: int)
    requires x in s
    ensures 0 <= k < |s| && s[k] == x
  {
    if s[0] == x then 0 else 1 + Position(s[1..], x)
  }

  /** Linking x in at position k of the arrived nodes puts it between positions k and k+1 of the whole list. */
  lemma FramedInsert(h: LNode, ns: seq<LNode>, t: LNode, k: int, x: LNode)
    requires 0 <= k <= |ns|
    ensures [h] + (ns[..k] + [x] + ns[k..]) + [t] == ([h] + ns + [t])[..k + 1] + [x] + ([h] + ns + [t])[k + 1..]
  {
    var a := [h] + ns + [t];
    assert a[..k + 1] == [h] + ns[..k];
    assert a[k + 1..] == ns[k..] + [t];
  }

  /** Unlinking the arrived node at position k takes out position k+1 of the whole list. */
  lemma FramedRemove(h: LNode, ns: seq<LNode>, t: LNode, k: int)
    requires 0 <= k < |ns|
    ensures [h] + (ns[..k] + ns[k + 1..]) + [t] == ([h] + ns + [t])[..k + 1] + ([h] + ns + [t])[k + 2..]
  {
    var a := [h] + ns + [t];
    assert a[..k + 1] == [h] + ns[..k];
    assert a[k + 2..] == ns[k + 1..] + [t];
  }

  /** Putting node between positions k and k+1 of the list puts its value there among the values between the sentinels. */
  lemma ArriveSlice(v: seq<int>, k: int, n: int)
    requires 0 <= k <= |v| - 2
    ensures (v[..k + 1] + [n] + v[k + 1..])[1..|v|] == InsertAt(v[1..|v| - 1], k, n)
  {
    var e := v[..k + 1] + [n] + v[k + 1..];
    var f := InsertAt(v[1..|v| - 1], k, n);
    assert |e| == |v| + 1;
    forall j | 0 <= j < |f|
      ensures e[1..|v|][j] == f[j]
    {
      assert e[1..|v|][j] == e[j + 1];
      if j < k {
        assert e[j + 1] == v[j + 1] && f[j] == v[1..|v| - 1][j];
      } else if j > k {
        assert e[j + 1] == v[j] && f[j] == v[1..|v| - 1][j - 1];
      }
    }
  }

  /** Taking out the node at position k+1 of the list takes out the value at position k between the sentinels. */
  lemma DepartSlice(v: seq<int>, k: int)
    requires 0 <= k <= |v| - 3
    ensures (v[..k + 1] + v[k + 2..])[1..|v| - 2] == v[1..|v| - 1][..k] + v[1..|v| - 1][k + 1..]
  {
    var e := v[..k + 1] + v[k + 2..];
    var f := v[1..|v| - 1][..k] + v[1..|v| - 1][k + 1..];
    assert |e| == |v| - 1;
    forall j | 0 <= j < |f|
      ensures e[1..|v| - 2][j] == f[j]
    {
      assert e[1..|v| - 2][j] == e[j + 1];
      if j < k {
        assert e[j + 1] == v[j + 1] && f[j] == v[1..|v| - 1][j];
      } else {
        assert e[j + 1] == v[j + 2] && f[j] == v[1..|v| - 1][j + 1];
      }
    }
  }

  /** The values after arrive(n) links its node in at position k+1 of the list, whose values after the head are q and INT_MAX. */
  lemma ArriveValues(v: seq<int>, q: seq<int>, k: int, n: int)
    requires |v| >= 2 && v[1..] == q + [TOP] && Sorted(q) && k == InsertPos(q, n)
    ensures (v[..k + 1] + [n] + v[k + 1..])[1..] == InsertAt(q, k, n) + [TOP]
    ensures Sorted(InsertAt(q, k, n)) && FirstOr(InsertAt(q, k, n)) == if k == 0 then n else FirstOr(q)
  {
    assert q == v[1..|v| - 1];
    ArriveSlice(v, k, n);
    InsertSorted(q, k, n);
    var w := v[..k + 1] + [n] + v[k + 1..];
    assert w[1..] == w[1..|v|] + [w[|v|]];
  }

  /** Taking one element out of a sorted sequence leaves it sorted. */
  lemma RemoveSorted(d: seq<int>, k: int)
    requires 0 <= k < |d| && Sorted(d)
    ensures Sorted(d[..k] + d[k + 1..])
  {
    var e := d[..k] + d[k + 1..];
    forall i, j | 0 <= i < j < |e|
      ensures e[i] <= e[j]
    {
      assert e[i] == d[if i < k then i else i + 1];
      assert e[j] == d[if j < k then j else j + 1];
    }
  }

  /** The values after depart unlinks the node at position k+1 of the list, whose values after the head are q and INT_MAX. */
  lemma DepartValues(v: seq<int>, q: seq<int>, k: int)
    requires |v| >= 2 && v[1..] == q + [TOP] && Sorted(q) && 0 <= k < |q|
    ensures (v[..k + 1] + v[k + 2..])[1..] == q[..k] + q[k + 1..] + [TOP]
    ensures Sorted(q[..k] + q[k + 1..])
  {
    assert q == v[1..|v| - 1];
    DepartSlice(v, k);
    RemoveSorted(q, k);
    var w := v[..k + 1] + v[k + 2..];
    assert w[1..] == w[1..|v| - 2] + [w[|v| - 2]];
  }

  /** A depart right after an arrive takes out what the arrive put in. */
  lemma ArriveThenDepart(q: seq<int>, n: int)
    ensures var k := InsertPos(q, n);
      InsertAt(q, k, n)[k] == n && InsertAt(q, k, n)[..k] + InsertAt(q, k, n)[k + 1..] == q
  {
    var k := InsertPos(q, n);
    var r := InsertAt(q, k, n);
    var t := r[..k] + r[k + 1..];
    forall i | 0 <= i < |q|
      ensures t[i] == q[i]
    {
      if i < k {
        assert t[i] == r[i];
      } else {
        assert t[i] == r[i + 1];
      }
    }
    assert t == q;
  }

  /** After arrive(n) the first value, which min caches, is the lesser of the old one and n. */
  lemma ArriveFirst(q: seq<int>, n: i32)
    requires Sorted(q)
    ensures FirstOr(InsertAt(q, InsertPos(q, n as int), n as int)) == if n as int < FirstOr(q) then n as int else FirstOr(q)
  {
  }

  /** The parts of ListOk, for a run whose values are w. */
  lemma ListOkFrom(e: seq<LNode>, w: seq<int>, r: seq<int>)
    requires |e| >= 2 && Distinct(e) && Linked(e) && e[0].prev == null && e[|e| - 1].next == null
    requires ValuesOf(e) == w && w[1..] == r + [TOP] && Sorted(r)
    ensures ListOk(e, r)
  {
  }

  /** The run s with x put between positions k and k+1, cut into the nodes before left, left, x, right and the nodes after right. */
  lemma SpliceShape(s: seq<LNode>, k: int, x: LNode)
    requires Distinct(s) && 0 <= k && k + 1 < |s| && x !in s
    ensures s[..k + 1] + [x] + s[k + 1..] == s[..k] + [s[k], x, s[k + 1]] + s[k + 2..]
    ensures (s[..k + 1] + [x] + s[k + 1..])[0] == s[0] && (s[..k + 1] + [x] + s[k + 1..])[|s|] == s[|s| - 1]
    ensures s[k] !in s[..k] && s[k] !in s[k + 2..] && s[k + 1] !in s[..k] && s[k + 1] !in s[k + 2..]
    ensures x !in s[..k] && x !in s[k + 2..]
    ensures k > 0 ==> s[0] in s[..k] && s[1] != x
  {
    assert s == s[..k] + [s[k], s[k + 1]] + s[k + 2..];
    forall j | 0 <= j < k
      ensures s[..k][j] != s[k] && s[..k][j] != s[k + 1]
    {
      assert s[..k][j] == s[j];
    }
    var b := s[k + 2..];
    forall j | 0 <= j < |b|
      ensures b[j] != s[k] && b[j] != s[k + 1]
    {
      assert b[j] == s[j + k + 2];
    }
  }

  /** A linked run stays linked on either side of positions k and k+1, and is linked across them. */
  lemma LinkedAround(s: seq<LNode>, k: int)
    requires Linked(s) && 0 <= k && k + 1 < |s|
    ensures Linked(s[..k]) && Linked(s[k + 2..])
    ensures k > 0 ==> s[..k][k - 1].next == s[k] && s[k].prev == s[..k][k - 1]
    ensures k + 2 < |s| ==> s[k + 1].next == s[k + 2..][0] && s[k + 2..][0].prev == s[k + 1]
  {
    var a, b := s[..k], s[k + 2..];
    forall i | 0 <= i < |a| - 1
      ensures a[i].next == a[i + 1]
    {
      assert a[i] == s[i] && a[i + 1] == s[i + 1];
    }
    forall i | 1 <= i < |a|
      ensures a[i].prev == a[i - 1]
    {
      assert a[i] == s[i] && a[i - 1] == s[i - 1];
    }
    forall i | 0 <= i < |b| - 1
      ensures b[i].next == b[i + 1]
    {
      assert b[i] == s[i + k + 2] && b[i + 1] == s[i + k + 3];
    }
    forall i | 1 <= i < |b|
      ensures b[i].prev == b[i - 1]
    {
      assert b[i] == s[i + k + 2] && b[i - 1] == s[i + k + 1];
    }
  }

  /** Two linked runs joined through three nodes linked to each other and to the runs' ends make one linked run. */
  lemma LinkedJoin(a: seq<LNode>, l: LNode, x: LNode, r: LNode, b: seq<LNode>)
    requires Linked(a) && Linked(b)
    requires |a| > 0 ==> a[|a| - 1].next == l && l.prev == a[|a| - 1]
    requires l.next == x && x.prev == l && x.next == r && r.prev == x
    requires |b| > 0 ==> r.next == b[0] && b[0].prev == r
    ensures Linked(a + [l, x, r] + b)
  {
    var e := a + [l, x, r] + b;
    var n := |a|;
    forall i | 0 <= i < |e| - 1
      ensures e[i].next == e[i + 1]
    {
      if i < n - 1 {
        assert e[i] == a[i] && e[i + 1] == a[i + 1];
      } else if i == n - 1 {
        assert e[i] == a[n - 1] && e[i + 1] == l;
      } else if i == n + 2 {
        assert e[i] == r && e[i + 1] == b[0];
      } else if i > n + 2 {
        assert e[i] == b[i - n - 3] && e[i + 1] == b[i - n - 2];
      }
    }
    forall i | 1 <= i < |e|
      ensures e[i].prev == e[i - 1]
    {
      if i < n {
        assert e[i] == a[i] && e[i - 1] == a[i - 1];
      } else if i == n {
        assert e[i] == l && e[i - 1] == a[n - 1];
      } else if i == n + 3 {
        assert e[i] == b[0] && e[i - 1] == r;
      } else if i > n + 3 {
        assert e[i] == b[i - n - 3] && e[i - 1] == b[i - n - 4];
      }
    }
  }

  /** Putting a node that is not in a run without repeats between positions k and k+1 leaves no repeats. */
  lemma SpliceDistinct(s: seq<LNode>, k: int, x: LNode)
    requires Distinct(s) && 0 <= k && k + 1 <= |s| && x !in s
    ensures Distinct(s[..k + 1] + [x] + s[k + 1..])
  {
    var e := s[..k + 1] + [x] + s[k + 1..];
    forall i, j | 0 <= i < j < |e|
      ensures e[i] != e[j]
    {
      var i' := if i <= k then i else i - 1;
      var j' := if j <= k then j else j - 1;
      if i != k + 1 && j != k + 1 {
        assert e[i] == s[i'] && e[j] == s[j'] && i' < j';
      } else if i == k + 1 {
        assert e[j] == s[j'];
      } else {
        assert e[i] == s[i'];
      }
    }
  }

  /** The values of the run with x put between positions k and k+1 are the old values with x's put there. */
  lemma SpliceValues(s: seq<LNode>, k: int, x: LNode, e: seq<LNode>, w: seq<int>)
    requires 0 <= k && k + 1 <= |s|
    requires e == s[..k + 1] + [x] + s[k + 1..] && w == ValuesOf(s)[..k + 1] + [x.value as int] + ValuesOf(s)[k + 1..]
    ensures ValuesOf(e) == w
  {
    forall i | 0 <= i < |e|
      ensures e[i].value as int == w[i]
    {
      if i <= k {
        assert e[i] == s[i] && w[i] == ValuesOf(s)[i];
      } else if i > k + 1 {
        assert e[i] == s[i - 1] && w[i] == ValuesOf(s)[i - 1];
      }
    }
    ValuesAgree(e, w);
  }

  /** A run whose values agree with w one by one has the values w. */
  lemma ValuesAgree(e: seq<LNode>, w: seq<int>)
    requires |e| == |w| && forall i :: 0 <= i < |e| ==> e[i].value as int == w[i]
    ensures ValuesOf(e) == w
  {
  }

  /**
   * left->next = node; right->prev = node; node->prev = left;
   * node->next = right, for left and right adjacent at positions k and k+1
   * of a linked run: node is in the run between them, and the values are
   * the old ones with node's put between.
   */
  method Splice(left: LNode, node: LNode, right: LNode, ghost s: seq<LNode>, ghost q: seq<int>, ghost k: int)
    requires ListOk(s, q) && 0 <= k <= |q| && left == s[k] && right == s[k + 1] && node !in s
    requires k == InsertPos(q, node.value)
    modifies left, right, node
    ensures ListOk(s[..k + 1] + [node] + s[k + 1..], InsertAt(q, k, node.value))
    ensures node.value == old(node.value) && (s[0].next == node <==> k == 0)
    ensures FirstOr(InsertAt(q, k, node.value)) == if k == 0 then node.value as int else FirstOr(q)
  {
    ghost var v := ValuesOf(s);
    ghost var n := node.value as int;
    ghost var e, w := s[..k + 1] + [node] + s[k + 1..], v[..k + 1] + [n] + v[k + 1..];
    ArriveValues(v, q, k, n);
    SpliceLinks(left, node, right, s, k);
    assert ValuesOf(e) == w;
    ListOkFrom(e, w, InsertAt(q, k, n));
  }

  /** The four stores of Splice: the links and the values of the run with node put in at position k+1. */
  method SpliceLinks(left: LNode, node: LNode, right: LNode, ghost s: seq<LNode>, ghost k: int)
    requires Linked(s) && Distinct(s) && 0 <= k && k + 1 < |s| && left == s[k] && right == s[k + 1] && node !in s
    modifies left, right, node
    ensures Linked(s[..k + 1] + [node] + s[k + 1..]) && Distinct(s[..k + 1] + [node] + s[k + 1..])
    ensures ValuesOf(s[..k + 1] + [node] + s[k + 1..]) == old(ValuesOf(s))[..k + 1] + [old(node.value) as int] + old(ValuesOf(s))[k + 1..]
    ensures s[0].prev == old(s[0].prev) && s[|s| - 1].next == old(s[|s| - 1].next) && node.value == old(node.value)
    ensures (s[..k + 1] + [node] + s[k + 1..])[0] == s[0] && (s[..k + 1] + [node] + s[k + 1..])[|s|] == s[|s| - 1]
    ensures s[0].next == node <==> k == 0
  {
    var e := s[..k + 1] + [node] + s[k + 1..];
    ghost var w := ValuesOf(s)[..k + 1] + [node.value as int] + ValuesOf(s)[k + 1..];
    ghost var before, after := s[..k], s[k + 2..];
    SpliceDistinct(s, k, node);
    SpliceValues(s, k, node, e, w);
    SpliceShape(s, k, node);
    LinkedAround(s, k);
    SpliceStores(left, node, right, before, after);
  }

  /** The four stores themselves: left, node and right become linked to each other, between the linked runs before and after them. */
  method SpliceStores(left: LNode, node: LNode, right: LNode, ghost before: seq<LNode>, ghost after: seq<LNode>)
    requires Linked(before) && Linked(after)
    requires left !in before && left !in after && right !in before && right !in after && node !in before && node !in after
    requires node != left && node != right && left != right
    requires |before| > 0 ==> before[|before| - 1].next == left && left.prev == before[|before| - 1]
    requires |after| > 0 ==> right.next == after[0] && after[0].prev == right
    modifies left, right, node
    ensures Linked(before + [left, node, right] + after)
    ensures left.value == old(left.value) && right.value == old(right.value) && node.value == old(node.value)
    ensures left.prev == old(left.prev) && right.next == old(right.next)
    ensures ValuesOf(before + [left, node, right] + after) == old(ValuesOf(before + [left, node, right] + after))
  {
    left.next := node;
    right.prev := node;
    node.prev := left;
    node.next := right;
    LinkedJoin(before, left, node, right, after);
  }

  /**
   * left->next = right; right->prev = left, for the node at position k+1
   * of a linked run between left and right: the node is out of the run,
   * and its value out of the values.
   */
  method Unlink(left: LNode, node: LNode, right: LNode, ghost s: seq<LNode>, ghost q: seq<int>, ghost k: int)
    requires ListOk(s, q) && 0 <= k < |q| && left == s[k] && node == s[k + 1] && right == s[k + 2]
    modifies left, right
    ensures ListOk(s[..k + 1] + s[k + 2..], q[..k] + q[k + 1..]) && node !in s[..k + 1] + s[k + 2..]
    ensures (s[..k + 1] + s[k + 2..])[1].value as int == FirstOr(q[..k] + q[k + 1..])
  {
    ghost var v := ValuesOf(s);
    DepartValues(v, q, k);
    UnlinkLinks(left, node, right, s, k);
  }

  /** The two stores of Unlink: the links and the values of the run with position k+1 taken out. */
  method UnlinkLinks(left: LNode, node: LNode, right: LNode, ghost s: seq<LNode>, ghost k: int)
    requires Linked(s) && Distinct(s) && 0 <= k && k + 2 < |s| && left == s[k] && node == s[k + 1] && right == s[k + 2]
    modifies left, right
    ensures Linked(s[..k + 1] + s[k + 2..]) && Distinct(s[..k + 1] + s[k + 2..])
    ensures node !in s[..k + 1] + s[k + 2..]
    ensures ValuesOf(s[..k + 1] + s[k + 2..]) == old(ValuesOf(s))[..k + 1] + old(ValuesOf(s))[k + 2..]
    ensures s[0].prev == old(s[0].prev) && s[|s| - 1].next == old(s[|s| - 1].next)
  {
    ghost var e := s[..k + 1] + s[k + 2..];
    forall j | 0 <= j < |e|
      ensures e[j] != node
    {
      if j > k {
        assert e[j] == s[j + 1];
      }
    }
    assert Distinct(e);
    left.next := right;
    right.prev := left;
    forall i | 0 <= i < |e| - 1
      ensures e[i].next == e[i + 1]
    {
      if i < k {
        assert e[i] == s[i] && e[i + 1] == s[i + 1] && s[i] != left;
      } else if i > k {
        assert e[i] == s[i + 1] && e[i + 1] == s[i + 2] && s[i + 1] != left;
      }
    }
    forall i | 1 <= i < |e|
      ensures e[i].prev == e[i - 1]
    {
      if i < k + 1 {
        assert e[i] == s[i] && e[i - 1] == s[i - 1] && s[i] != right;
      } else if i > k + 1 {
        assert e[i] == s[i + 1] && e[i - 1] == s[i] && s[i + 1] != right;
      }
    }
    assert s[0] != right && s[|s| - 1] != left;
  }

  class Indicator {
    const head: LNode
    const tail: LNode
    var min: i32
    /** The arrived threads' nodes, in list order. */
    ghost var nodes: seq<LNode>
    /** Their values, in list order. */
    ghost var values: seq<int>

    /** Every node of the list, sentinels included. */
    ghost function All(): (r: seq<LNode>)
      reads this
      ensures |r| == |nodes| + 2 && r[0] == head && r[|r| - 1] == tail
    {
      [head] + nodes + [tail]
    }

    /** The list is well formed, holds `values` between the sentinels, and min is its first value. */
    ghost predicate Valid()
      reads this, head, tail, nodes
    {
      ListOk(All(), values) && min as int == FirstOr(values)
    }

    /** sosillc_t(): head linked to the tail, which holds INT_MAX, and min = INT_MAX. */
    constructor ()
      ensures Valid() && values == [] && min == TOP
      ensures fresh(head) && fresh(tail)
    {
      var h := new LNode();
      var t := new LNode();
      head, tail := h, t;
      nodes, values := [], [];
      new;
      head.next := tail;
      head.prev := null;
      tail.prev := head;
      tail.next := null;
      tail.value := TOP;
      min := tail.value;
      assert ValuesOf(All())[1..] == [TOP];
    }

    /** getnode(int): the list itself, whatever the index. */
    function GetNode(index: int): (r: Indicator)
      ensures r == this
    {
      this
    }

    /**
     * arrive(n): link the thread's node, holding n, in after the values
     * below n; if it is now first, min becomes n. The thread's node is not
     * in the list when it arrives.
     */
    method Arrive(me: LNode, n: i32)
      requires Valid() && me !in All()
      modifies this, head, tail, nodes, me
      ensures Valid()
      ensures nodes == old(nodes)[..InsertPos(old(values), n)] + [me] + old(nodes)[InsertPos(old(values), n)..]
      ensures values == InsertAt(old(values), InsertPos(old(values), n), n)
    {
      var left, right, k := Scan(n);
      SetValue(me, n);
      LinkIn(left, me, right, k);
      NoteFirst(me, n);
    }

    /** my_node_buffer->value = n, for a node out of the list. */
    method SetValue(me: LNode, n: i32)
      requires Valid() && me !in All()
      modifies me
      ensures Valid() && me.value == n
    {
      me.value := n;
    }

    /** The end of arrive: if the thread's node is now first, min becomes its value n. */
    method NoteFirst(me: LNode, n: i32)
      requires ListOk(All(), values)
      requires FirstOr(values) == if head.next == me then n as int else min as int
      modifies this
      ensures Valid() && nodes == old(nodes) && values == old(values)
    {
      if head.next == me {
        min := n;
      }
    }

    /** The loop of arrive: left and right are the nodes around the place of n. */
    method Scan(n: i32) returns (left: LNode, right: LNode, ghost k: int)
      requires Valid()
      ensures 0 <= k <= |nodes| && left == All()[k] && right == All()[k + 1] && k == InsertPos(values, n)
    {
      ghost var s := All();
      ghost var v := ValuesOf(s);
      assert forall j :: 0 <= j < |values| ==> values[j] == v[j + 1];
      left := head;
      right := head.next;
      k := 0;
      while right != tail && right.value < n
        invariant 0 <= k <= |nodes| && left == s[k] && right == s[k + 1]
        invariant forall j :: 0 <= j < k ==> values[j] < n
        decreases |nodes| - k
      {
        left := right;
        right := right.next;
        k := k + 1;
      }
      if k < |nodes| {
        assert right != tail;
      }
    }

    /**
     * The splice of arrive: node goes between left and right at position
     * k, and is first exactly when k is 0.
     */
    method LinkIn(left: LNode, node: LNode, right: LNode, ghost k: int)
      requires Valid() && node !in All() && 0 <= k <= |nodes| && left == All()[k] && right == All()[k + 1]
      requires k == InsertPos(values, node.value)
      modifies this, left, right, node
      ensures ListOk(All(), values) && min == old(min) && node.value == old(node.value)
      ensures nodes == old(nodes)[..k] + [node] + old(nodes)[k..]
      ensures values == InsertAt(old(values), k, node.value)
      ensures FirstOr(values) == if k == 0 then node.value as int else FirstOr(old(values))
      ensures head.next == node <==> k == 0
    {
      ghost var s, q := All(), values;
      FramedInsert(head, nodes, tail, k, node);
      nodes, values := nodes[..k] + [node] + nodes[k..], InsertAt(values, k, node.value as int);
      assert All() == s[..k + 1] + [node] + s[k + 1..];
      Splice(left, node, right, s, q, k);
    }

    /** The indexed arrive(int, n): arrive(n). */
    method ArriveIndexed(index: int, me: LNode, n: i32)
      requires Valid() && me !in All()
      modifies this, head, tail, nodes, me
      ensures Valid()
      ensures nodes == old(nodes)[..InsertPos(old(values), n)] + [me] + old(nodes)[InsertPos(old(values), n)..]
      ensures values == InsertAt(old(values), InsertPos(old(values), n), n)
    {
      Arrive(me, n);
    }

    /**
     * depart(): if the thread's node is linked in (its prev is not NULL),
     * unlink it, bring min up to the new first value, and reset its prev and
     * next to NULL. A thread's node is in the list exactly when its prev is
     * not NULL.
     */
    method Depart(me: LNode)
      requires Valid() && me != head && me != tail && (me !in nodes ==> me.prev == null)
      modifies this, head, tail, nodes, me
      ensures Valid() && me.prev == null
      ensures me !in old(nodes) ==> nodes == old(nodes) && values == old(values) && me.next == old(me.next)
      ensures me in old(nodes) ==> (me.next == null && me !in nodes
        && var k := Position(old(nodes), me);
          nodes == old(nodes)[..k] + old(nodes)[k + 1..] && values == old(values)[..k] + old(values)[k + 1..])
    {
      if me in nodes {
        LinkedPrev(me);
      }
      if me.prev == null {
        return;
      }
      DepartLinked(me);
    }

    /** A node in the list has a node before it. */
    lemma LinkedPrev(me: LNode)
      requires Valid() && me in nodes
      ensures me.prev == All()[Position(nodes, me)] && me.prev != null
    {
      var k := Position(nodes, me);
      assert All()[k + 1] == me;
    }

    /** The locked part of depart for a node in the list, and the clearing of its links after it. */
    method DepartLinked(me: LNode)
      requires Valid() && me in nodes
      modifies this, head, tail, nodes, me
      ensures Valid() && me.prev == null && me.next == null && me !in nodes
      ensures var k := Position(old(nodes), me);
        nodes == old(nodes)[..k] + old(nodes)[k + 1..] && values == old(values)[..k] + old(values)[k + 1..]
    {
      ghost var k := Position(nodes, me);
      LinkedPrev(me);
      var left := me.prev;
      var right := me.next;
      assert All()[k + 1] == me && All()[k + 1].next == All()[k + 2];
      UnlinkOut(left, me, right, k);
      Detach(me);
    }

    /** my_node_buffer->prev = my_node_buffer->next = NULL, for a node out of the list. */
    method Detach(me: LNode)
      requires Valid() && me !in All()
      modifies me
      ensures Valid() && me.prev == null && me.next == null
    {
      me.prev, me.next := null, null;
    }

    /** The unlink of depart: node leaves from between left and right, and min becomes the new first value. */
    method UnlinkOut(left: LNode, node: LNode, right: LNode, ghost k: int)
      requires Valid() && 0 <= k < |nodes| && nodes[k] == node && left == All()[k] && right == All()[k + 2]
      modifies this, left, right
      ensures Valid() && node !in All()
      ensures nodes == old(nodes)[..k] + old(nodes)[k + 1..] && values == old(values)[..k] + old(values)[k + 1..]
    {
      ghost var s, q := All(), values;
      FramedRemove(head, nodes, tail, k);
      nodes, values := nodes[..k] + nodes[k + 1..], values[..k] + values[k + 1..];
      assert All() == s[..k + 1] + s[k + 2..];
      Unlink(left, node, right, s, q, k);
      Refresh();
    }

    /** The end of depart: min becomes the first value after the head if it is not that already. */
    method Refresh()
      requires ListOk(All(), values)
      modifies this
      ensures Valid() && nodes == old(nodes) && values == old(values)
    {
      if min != head.next.value {
        min := head.next.value;
      }
    }

    /** The indexed depart(int): depart(). */
    method DepartIndexed(index: int, me: LNode)
      requires Valid() && me != head && me != tail && (me !in nodes ==> me.prev == null)
      modifies this, head, tail, nodes, me
      ensures Valid() && me.prev == null
      ensures me !in old(nodes) ==> nodes == old(nodes) && values == old(values) && me.next == old(me.next)
      ensures me in old(nodes) ==> (me.next == null && me !in nodes
        && var k := Position(old(nodes), me);
          nodes == old(nodes)[..k] + old(nodes)[k + 1..] && values == old(values)[..k] + old(values)[k + 1..])
    {
      Depart(me);
    }

    /** query(): min, which is the least arrived value, and TOP when nobody has arrived. */
    method Query() returns (r: i32)
      requires Valid()
      ensures values == [] ==> r == TOP
      ensures values != [] ==> r as int == values[0] && forall k :: 0 <= k < |values| ==> r as int <= values[k]
    {
      r := min;
    }
  }
}

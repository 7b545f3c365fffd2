/**
 * The invariant the lock-based mindicators (lockmin.hpp, lockcache.hpp)
 * keep over the values of their tree, root at index 0 and leaves from
 * FIRST_LEAF on: every internal node holds the least value of its
 * children. The root then holds the least leaf, and the leaves alone
 * determine every other node.
 */
module MinTree {
  import opened MindicatorCommon

  /** The least value of a non-empty sequence, taken from the front as the source's loops do. */
  function MinSeq(q: seq<i32>): (r: i32)
    requires |q| >= 1
    ensures forall k :: 0 <= k < |q| ==> r <= q[k]
    ensures exists k :: 0 <= k < |q| && q[k] == r
    decreases |q|
  {
    if |q| == 1 then q[0]
    else
      var m := MinSeq(q[..|q| - 1]);
      assert forall k :: 0 <= k < |q| - 1 ==> q[..|q| - 1][k] == q[k];
      Min(m, q[|q| - 1])
  }

  /** Lowering some entries of a sequence to at most n, one of them to exactly n or below, lowers its least value likewise. */
  lemma MinLowered(a: seq<i32>, b: seq<i32>, n: i32, c: int)
    requires |a| == |b| >= 1 && 0 <= c < |a|
    requires forall k :: 0 <= k < |a| ==> b[k] == a[k] || b[k] == Min(a[k], n)
    requires b[c] == Min(a[c], n)
    ensures MinSeq(b) == Min(MinSeq(a), n)
  {
    var k0 :| 0 <= k0 < |a| && a[k0] == MinSeq(a);
    assert MinSeq(b) <= b[k0];
    var k1 :| 0 <= k1 < |b| && b[k1] == MinSeq(b);
    assert MinSeq(a) <= a[k1];
  }

  /** Raising entries of a sequence does not lower its least value. */
  lemma MinRaised(a: seq<i32>, b: seq<i32>)
    requires |a| == |b| >= 1
    requires forall k :: 0 <= k < |a| ==> a[k] <= b[k]
    ensures MinSeq(a) <= MinSeq(b)
  {
    var k1 :| 0 <= k1 < |b| && b[k1] == MinSeq(b);
    assert MinSeq(a) <= a[k1];
  }

  /** Extending a slice by one entry takes the smaller of its least value and that entry, as the source's loops do. */
  lemma MinSnoc(q: seq<i32>, a: int, c: int)
    requires 0 <= a < c < |q|
    ensures MinSeq(q[a..c + 1]) == Min(MinSeq(q[a..c]), q[c])
  {
    assert q[a..c + 1][..c - a] == q[a..c];
  }

  /** Nothing is below TOP exactly when every entry is TOP. */
  lemma MinTop(q: seq<i32>)
    requires |q| >= 1
    ensures MinSeq(q) == TOP <==> forall k :: 0 <= k < |q| ==> q[k] == TOP
  {
  }

  /** The values of the children of p. */
  function Kids(s: seq<i32>, way: int, p: int): (r: seq<i32>)
    requires way >= 2 && p >= 0 && FirstChild(way, p) + way <= |s|
    ensures |r| == way && forall k :: 0 <= k < way ==> r[k] == s[FirstChild(way, p) + k]
  {
    MulLe(0, p, way);
    s[FirstChild(way, p) .. FirstChild(way, p) + way]
  }

  /** Each internal node of the tree s holds the least value of its children. */
  ghost predicate MinTreeOk(s: seq<i32>, way: int, fl: int)
  {
    && Shaped(way, fl, |s|)
    && forall p {:trigger Kids(s, way, p)} :: 0 <= p < fl ==> FirstChild(way, p) + way <= |s| && s[p] == MinSeq(Kids(s, way, p))
  }

  /** a is i or one of i's ancestors. */
  predicate AncOrSelf(way: int, a: int, i: int)
    requires way >= 2 && i >= 0
    decreases i
  {
    a == i || (i > 0 && AncOrSelf(way, a, ParentBelow(way, i)))
  }

  /** Parent for a node other than the root, with the bound that makes AncOrSelf terminate. */
  function ParentBelow(way: int, i: int): (r: int)
    requires way >= 2 && i >= 1
    ensures r == Parent(way, i) && 0 <= r < i
  {
    ChildOf(way, i);
    Parent(way, i)
  }

  lemma {:induction false} RootAnc(way: int, i: int)
    requires way >= 2 && i >= 0
    ensures AncOrSelf(way, 0, i)
    decreases i
  {
    if i > 0 {
      RootAnc(way, ParentBelow(way, i));
    }
  }

  lemma {:induction false} AncBelow(way: int, a: int, i: int)
    requires way >= 2 && i >= 0 && AncOrSelf(way, a, i)
    ensures 0 <= a <= i
    decreases i
  {
    if a != i {
      AncBelow(way, a, ParentBelow(way, i));
    }
  }

  /** A proper ancestor of a node is an internal node. */
  lemma {:induction false} AncInternal(way: int, fl: int, n: int, a: int, i: int)
    requires Shaped(way, fl, n) && 0 <= i < n && AncOrSelf(way, a, i) && a != i
    ensures 0 <= a < fl
    decreases i
  {
    var p := ParentBelow(way, i);
    ParentInternal(way, fl, n, i);
    if a != p {
      AncInternal(way, fl, n, a, p);
    }
  }

  /** The parent of an ancestor of i (other than the root) is an ancestor of i. */
  lemma {:induction false} AncParent(way: int, x: int, i: int)
    requires way >= 2 && i >= 0 && x > 0 && AncOrSelf(way, x, i)
    ensures AncOrSelf(way, ParentBelow(way, x), i)
    decreases i
  {
    if x != i {
      AncParent(way, x, ParentBelow(way, i));
    }
  }

  /** A proper ancestor q of i has a child c on the way down to i. */
  lemma {:induction false} PathChild(way: int, q: int, i: int) returns (c: int)
    requires way >= 2 && i >= 0 && AncOrSelf(way, q, i) && q != i
    ensures 1 <= c <= i && ParentBelow(way, c) == q && AncOrSelf(way, c, i)
    decreases i
  {
    var p := ParentBelow(way, i);
    if p == q {
      c := i;
    } else {
      c := PathChild(way, q, p);
      AncBelow(way, c, p);
    }
  }

  /** Going up the tree never increases the value. */
  lemma {:induction false} AncLe(s: seq<i32>, way: int, fl: int, a: int, i: int)
    requires MinTreeOk(s, way, fl) && 0 <= i < |s| && AncOrSelf(way, a, i)
    ensures 0 <= a <= i && s[a] <= s[i]
    decreases i
  {
    AncBelow(way, a, i);
    if a != i {
      var p := ParentBelow(way, i);
      AncLe(s, way, fl, a, p);
      ParentInternal(way, fl, |s|, i);
      ChildrenInside(way, fl, |s|, p);
      ChildOf(way, i);
      assert Kids(s, way, p)[Rel(way, i)] == s[i];
    }
  }

  /** Every node's value is held by some leaf below it. */
  lemma {:induction false} Descend(s: seq<i32>, way: int, fl: int, i: int) returns (j: int)
    requires MinTreeOk(s, way, fl) && 0 <= i < |s|
    ensures fl <= j < |s| && s[j] == s[i]
    decreases |s| - i
  {
    if i >= fl {
      return i;
    }
    ChildrenInside(way, fl, |s|, i);
    var kids := Kids(s, way, i);
    var k :| 0 <= k < way && kids[k] == MinSeq(kids);
    ParentOf(way, i, k);
    j := Descend(s, way, fl, FirstChild(way, i) + k);
  }

  /** The root holds the least leaf. */
  lemma RootIsLeast(s: seq<i32>, way: int, fl: int)
    requires MinTreeOk(s, way, fl)
    ensures 0 <= fl < |s| && s[0] == MinSeq(s[fl..])
  {
    MulLe(1, way, fl);
    var leaves := s[fl..];
    var k :| 0 <= k < |leaves| && leaves[k] == MinSeq(leaves);
    RootAnc(way, fl + k);
    AncLe(s, way, fl, 0, fl + k);
    var j := Descend(s, way, fl, 0);
    LeastAt(leaves, k, j - fl, s[0]);
  }

  /** x is the least value of q if it is at most q's least value q[a] and is q[b]. */
  lemma LeastAt(q: seq<i32>, a: int, b: int, x: i32)
    requires 0 <= a < |q| && 0 <= b < |q| && q[a] == MinSeq(q) && x <= q[a] && q[b] == x
    ensures MinSeq(q) == x
  {
  }

  /** Two trees that keep the invariant and agree on the leaves agree everywhere. */
  lemma TreeUnique(s: seq<i32>, t: seq<i32>, way: int, fl: int)
    requires MinTreeOk(s, way, fl) && MinTreeOk(t, way, fl) && |s| == |t|
    requires s[fl..] == t[fl..]
    ensures s == t
  {
    forall j | 0 <= j < |s|
      ensures s[j] == t[j]
    {
      SameAt(s, t, way, fl, j);
    }
  }

  lemma {:induction false} SameAt(s: seq<i32>, t: seq<i32>, way: int, fl: int, j: int)
    requires MinTreeOk(s, way, fl) && MinTreeOk(t, way, fl) && |s| == |t|
    requires s[fl..] == t[fl..] && 0 <= j < |s|
    ensures s[j] == t[j]
    decreases |s| - j
  {
    if j >= fl {
      assert s[j] == s[fl..][j - fl] && t[j] == t[fl..][j - fl];
    } else {
      ChildrenInside(way, fl, |s|, j);
      forall k | 0 <= k < way
        ensures Kids(s, way, j)[k] == Kids(t, way, j)[k]
      {
        ParentOf(way, j, k);
        SameAt(s, t, way, fl, FirstChild(way, j) + k);
      }
      assert Kids(s, way, j) == Kids(t, way, j);
    }
  }

  /** A tree whose every node is TOP keeps the invariant. */
  lemma AllTop(s: seq<i32>, way: int, fl: int)
    requires Shaped(way, fl, |s|) && forall j :: 0 <= j < |s| ==> s[j] == TOP
    ensures MinTreeOk(s, way, fl)
  {
    forall p | 0 <= p < fl
      ensures FirstChild(way, p) + way <= |s| && s[p] == MinSeq(Kids(s, way, p))
    {
      ChildrenInside(way, fl, |s|, p);
      MinTop(Kids(s, way, p));
    }
  }
}

/**
 * What the mindicators of tsx_acceleration/mindicator/ share
 * (common.hpp): the compile-time Power and GeoSum that size their trees,
 * the packed word of a lock-free node, TOP, and the shape of a complete
 * W-ary tree of depth D laid out in one array with the root at index 0
 * and the leaves last, which Mindicator.hpp, lockmin.hpp and
 * lockcache.hpp each compute with the same index arithmetic.
 */
module MindicatorCommon {

  /** int32_t. */
  type i32 = x: int | -0x8000_0000 <= x < 0x8000_0000

  /** uint32_t. */
  type u32 = x: int | 0 <= x < 0x1_0000_0000

  /** A one-bit and a 31-bit unsigned bit-field. */
  type bit = x: int | 0 <= x < 2
  type u31 = x: int | 0 <= x < 0x8000_0000

  /** TOP = INT_MAX: the value of a node below which nobody has arrived. */
  const TOP: i32 := 0x7FFF_FFFF

  /** node_state_t. */
  const TENTATIVE: bit := 0
  const STEADY: bit := 1

  /** The smaller of two values. */
  function Min(a: i32, b: i32): (r: i32)
    ensures r <= a && r <= b && (r == a || r == b)
  {
    if a < b then a else b
  }

  // ---------------------------------------------------------------------
  // Power and GeoSum

  /** Power<Num, Exp>: Power<Num, Exp - 1> times Num, and 1 for Exp 0; for Num >= 1 it is positive and, from Exp 1 on, at least Num. */
  function Power(n: int, e: nat): (r: int)
    ensures n >= 1 ==> r >= 1 && (e >= 1 ==> r >= n)
  {
    if e == 0 then 1
    else
      var q := Power(n, e - 1);
      if n >= 1 then MulLe(1, q, n); q * n else q * n
  }

  /**
   * GeoSum<First, Scalar, Terms>: First * (Scalar^Terms - 1) / (Scalar - 1),
   * and First itself for one term. The quotient is exact (see
   * its ensures), so C's truncating division and Dafny's agree.
   */
  function GeoSum(first: int, scalar: int, terms: nat): (r: int)
    requires terms == 1 || scalar != 1
    ensures scalar >= 2 ==> r == first * SumPow(scalar, terms)
  {
    if terms == 1 then first
    else
      if scalar >= 2 then
        SumPowTimes(scalar, terms);
        ExactQuotient(first, Power(scalar, terms) - 1, scalar - 1, SumPow(scalar, terms));
        first * (Power(scalar, terms) - 1) / (scalar - 1)
      else first * (Power(scalar, terms) - 1) / (scalar - 1)
  }

  /** The series 1 + s + ... + s^(t-1). */
  function SumPow(s: int, t: nat): int
  {
    if t == 0 then 0 else SumPow(s, t - 1) + Power(s, t - 1)
  }

  /** (s - 1)(1 + s + ... + s^(t-1)) = s^t - 1. */
  lemma {:induction false} SumPowTimes(s: int, t: nat)
    ensures (s - 1) * SumPow(s, t) == Power(s, t) - 1
  {
    if t > 0 {
      SumPowTimes(s, t - 1);
      var p := Power(s, t - 1);
      assert (s - 1) * (SumPow(s, t - 1) + p) == (s - 1) * SumPow(s, t - 1) + (s - 1) * p;
      assert (s - 1) * p == p * s - p;
    }
  }

  /** 1 + s(1 + s + ... + s^(t-2)) = 1 + s + ... + s^(t-1). */
  lemma {:induction false} SumPowFront(s: int, t: nat)
    requires t >= 1
    ensures SumPow(s, t) == 1 + s * SumPow(s, t - 1)
  {
    if t >= 2 {
      SumPowFront(s, t - 1);
      assert s * SumPow(s, t - 1) == s * SumPow(s, t - 2) + s * Power(s, t - 2);
    }
  }

  /** f * (d * m) / d is f * m. */
  lemma ExactQuotient(f: int, x: int, d: int, m: int)
    requires d >= 1 && x == d * m
    ensures f * x / d == f * m
  {
    assert f * x == (f * m) * d;
    DivExact(f * m, d);
  }

  lemma DivExact(q: int, d: int)
    requires d >= 1
    ensures q * d / d == q
  {
    var x := q * d;
    var k := x / d;
    assert (q - k) * d == x % d;
    if q - k >= 1 {
      MulLe(1, q - k, d);
    } else if q - k <= -1 {
      MulLe(q - k, -1, d);
    }
  }

  /**
   * A tree of `way` children per node and `depth` levels has
   * NUM_NODES = GeoSum<1, way, depth> nodes, of which the first
   * FIRST_LEAF = GeoSum<1, way, depth - 1> are internal and the remaining
   * MAX_THREADS = Power<way, depth - 1> are leaves; every internal node's
   * way children fit, since NUM_NODES = FIRST_LEAF * way + 1.
   */
  lemma ShapeCounts(way: int, depth: nat)
    requires way >= 2 && depth >= 1
    ensures GeoSum(1, way, depth) == GeoSum(1, way, depth - 1) + Power(way, depth - 1)
    ensures Shaped(way, GeoSum(1, way, depth - 1), GeoSum(1, way, depth))
    ensures Power(way, depth - 1) >= 1
  {
    var inner, p := SumPow(way, depth - 1), Power(way, depth - 1);
    SumPowFront(way, depth);
    SumPowTimes(way, depth - 1);
    assert (way - 1) * inner == p - 1 >= 0;
    if inner < 0 {
      MulLe(inner, -1, way - 1);
      assert false;
    }
    MulLe(1, way, inner);
  }

  // ---------------------------------------------------------------------
  // The word of a lock-free node

  /**
   * word64_t: a one-bit steady flag (STEADY or TENTATIVE), a 31-bit
   * version and a 32-bit minimum. The 32- and 64-bit views of the union
   * are the same bits and are not modelled.
   */
  datatype Word = Word(steady: bit, ver: u31, min: i32)

  /** Storing a uint32_t in an int32_t field keeps its 32 bits (two's complement). */
  function ToI32(d: u32): (r: i32)
    ensures r % 0x1_0000_0000 == d
  {
    if d < 0x8000_0000 then d else d - 0x1_0000_0000
  }

  /** Passing an int32_t as a uint32_t keeps its 32 bits. */
  function ToU32(x: i32): (r: u32)
    ensures r == x % 0x1_0000_0000
  {
    if x >= 0 then x else x + 0x1_0000_0000
  }

  /** The int32_t -> uint32_t -> int32_t trip is the identity. */
  lemma I32RoundTrip(x: i32)
    ensures ToI32(ToU32(x)) == x
  {
  }

  /**
   * reinit_word(w, s, d, v) and MAKE_WORD(w, s, d, v): the word whose
   * steady bit, minimum and version are s, d and v cut to their
   * bit-fields. Every field is overwritten, so the word written does not
   * depend on the old one and is the result here.
   */
  function ReinitWord(s: u32, d: u32, v: u32): (w: Word)
    ensures w.steady == s % 2 && w.ver == v % 0x8000_0000
    ensures w.min % 0x1_0000_0000 == d
  {
    Word(s % 2, v % 0x8000_0000, ToI32(d))
  }

  /** A word built from values that fit its fields reads them back. */
  lemma ReinitReadsBack(s: bit, m: i32, v: u31)
    ensures ReinitWord(s, ToU32(m), v) == Word(s, v, m)
  {
    I32RoundTrip(m);
  }

  // ---------------------------------------------------------------------
  // Tree geometry

  /** A tree of `way` >= 2 children per internal node, fl internal nodes and n = fl * way + 1 nodes, the internal ones first. */
  predicate Shaped(way: int, fl: int, n: int)
  {
    way >= 2 && 0 <= fl < n && n == fl * way + 1
  }

  /**
   * parent / get_parent: index (i - 1) / WAY. C truncates toward zero, so
   * the root's "parent" is the root itself.
   */
  function Parent(way: int, i: int): (r: int)
    requires way >= 2 && i >= 0
    ensures i == 0 ==> r == 0
    ensures i >= 1 ==> 0 <= r < i
  {
    if i == 0 then 0 else DivBelow(i - 1, way); (i - 1) / way
  }

  /** x / w is at most x. */
  lemma DivBelow(x: int, w: int)
    requires x >= 0 && w >= 1
    ensures 0 <= x / w <= x
  {
    MulLe(1, w, x / w);
  }

  /** relative_index (lockcache.hpp): which of its parent's children i is, (i - 1) % WAY; -1 for the root, as C's % gives. */
  function Rel(way: int, i: int): (r: int)
    requires way >= 2 && i >= 0
    ensures i == 0 ==> r == -1
    ensures i >= 1 ==> 0 <= r < way && i == FirstChild(way, Parent(way, i)) + r
  {
    if i == 0 then -1 else (i - 1) % way
  }

  /** children: the index of the first child of i; its children are i*WAY + 1 .. i*WAY + WAY. */
  function FirstChild(way: int, i: int): (c: int)
    ensures way >= 1 && i >= 0 ==> i < c && c + way - 1 == (i + 1) * way
  {
    if way >= 1 && i >= 0 then MulLe(1, way, i); i * way + 1 else i * way + 1
  }

  /**
   * is_leaf: FIRST_LEAF <= i < NUM_NODES (lockmin.hpp, lockcache.hpp,
   * Mindicator.hpp); in a shaped tree these are exactly the nodes whose
   * children would lie past the end of the array.
   */
  predicate IsLeaf(way: int, fl: int, n: int, i: int)
    ensures Shaped(way, fl, n) && 0 <= i < n ==> (IsLeaf(way, fl, n, i) <==> FirstChild(way, i) + way - 1 >= n)
  {
    if Shaped(way, fl, n) && 0 <= i < n then ChildrenInside(way, fl, n, i); fl <= i < n else fl <= i < n
  }

  lemma MulLe(a: int, b: int, w: int)
    requires a <= b && w >= 0
    ensures a * w <= b * w
  {
    assert b * w - a * w == (b - a) * w;
  }

  /** A node other than the root is child Rel of its parent, which comes before it. */
  lemma ChildOf(way: int, c: int)
    requires way >= 2 && c >= 1
    ensures 0 <= Parent(way, c) < c && 0 <= Rel(way, c) < way
    ensures c == FirstChild(way, Parent(way, c)) + Rel(way, c)
  {
    var p := Parent(way, c);
    assert c - 1 == p * way + (c - 1) % way;
    MulLe(1, way, p);
  }

  /** Child r of p has parent p and relative index r. */
  lemma ParentOf(way: int, p: int, r: int)
    requires way >= 2 && p >= 0 && 0 <= r < way
    ensures FirstChild(way, p) + r > p
    ensures Parent(way, FirstChild(way, p) + r) == p && Rel(way, FirstChild(way, p) + r) == r
  {
    var c := FirstChild(way, p) + r;
    MulLe(1, way, p);
    ChildOf(way, c);
    var q, s := Parent(way, c), Rel(way, c);
    assert q * way + s == p * way + r;
    if q < p {
      MulLe(q + 1, p, way);
    } else if q > p {
      MulLe(p + 1, q, way);
    }
  }

  /** Every node but the root has an internal parent. */
  lemma ParentInternal(way: int, fl: int, n: int, c: int)
    requires Shaped(way, fl, n) && 1 <= c < n
    ensures 0 <= Parent(way, c) < fl
  {
    ChildOf(way, c);
    var p := Parent(way, c);
    if p >= fl {
      MulLe(fl, p, way);
    }
  }

  /** The children of an internal node are in the tree; a leaf's are not. */
  lemma ChildrenInside(way: int, fl: int, n: int, p: int)
    requires Shaped(way, fl, n) && 0 <= p < n
    ensures p < fl <==> FirstChild(way, p) + way - 1 < n
  {
    if p < fl {
      MulLe(p + 1, fl, way);
    } else {
      MulLe(fl, p, way);
    }
  }
}

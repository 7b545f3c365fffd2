/**
 * The length-prefixed `int*` buckets of the C++ hash sets: `arr[0]` holds
 * the number of keys and the keys are `arr[1..arr[0]]`. A bucket is filled
 * once, right after `alloc_fset`, and never written again once it is
 * published, so a published bucket is modelled by the value of its words
 * (`seq<int>`), while each helper below fills a fresh `array<int>` in place
 * and publishes it as `n[..]`. The loops are proved against the sequence
 * functions of module Buckets.
 *
 * `minAllocLen` is the allocation floor: 0 for the plain set, whose
 * `alloc_fset(len)` allocates `len + 1` ints, and MIN_ALLOC_LEN = 4 for
 * the transactional set, which allocates `max(MIN_ALLOC_LEN + 1, len + 1)`.
 */
module LengthPrefixed {
  import Buckets

  /** A well-formed bucket: the length word fits the allocation. */
  predicate Wf(w: seq<int>)
  {
    |w| >= 1 && 0 <= w[0] < |w|
  }

  /** The keys of a bucket, `arr[1..arr[0]]`. */
  function Elems(w: seq<int>): (s: seq<int>)
    requires Wf(w)
    ensures |s| == w[0]
  {
    w[1..w[0] + 1]
  }

  /** The number of ints `alloc_fset(len)` allocates. */
  function AllocLength(len: int, minAllocLen: int): (n: int)
    ensures n >= len + 1 && n >= minAllocLen + 1
    ensures n == len + 1 || n == minAllocLen + 1
  {
    if minAllocLen + 1 > len + 1 then minAllocLen + 1 else len + 1
  }

  /** alloc_fset(len): a fresh array whose length word is `len`; the other ints are uninitialised. */
  method AllocFset(len: int, minAllocLen: int) returns (arr: array<int>)
    requires len >= 0 && minAllocLen >= 0
    ensures fresh(arr)
    ensures arr.Length == AllocLength(len, minAllocLen)
    ensures arr[0] == len && Wf(arr[..])
  {
    arr := new int[AllocLength(len, minAllocLen)];
    arr[0] := len;
  }

  /** arrayContains: scan `o[1..o[0]]` for the key. */
  method ArrayContains(o: seq<int>, key: int) returns (b: bool)
    requires Wf(o)
    ensures b <==> key in Elems(o)
  {
    var i := 1;
    while i <= o[0]
      invariant 1 <= i <= o[0] + 1
      invariant forall k :: 1 <= k < i ==> o[k] != key
    {
      if o[i] == key {
        return true;
      }
      i := i + 1;
    }
    return false;
  }

  /**
   * arrayInsert: the same bucket when the key is present; otherwise a fresh
   * bucket one longer whose keys are the old ones followed by the key.
   */
  method ArrayInsert(o: seq<int>, key: int, minAllocLen: int) returns (n: seq<int>)
    requires Wf(o) && minAllocLen >= 0
    ensures Wf(n)
    ensures Elems(n) == Buckets.ArrayInsert(Elems(o), key)
    ensures n == o <==> key in Elems(o)
    ensures n != o ==> n[0] == o[0] + 1 && |n| == AllocLength(o[0] + 1, minAllocLen)
  {
    var found := ArrayContains(o, key);
    if found {
      return o;
    }
    var a := AllocFset(o[0] + 1, minAllocLen);
    var i := 1;
    while i <= o[0]
      invariant 1 <= i <= o[0] + 1
      invariant a[0] == o[0] + 1
      invariant forall k :: 1 <= k < i ==> a[k] == o[k]
    {
      a[i] := o[i];
      i := i + 1;
    }
    a[a[0]] := key;
    n := a[..];
    assert Elems(n) == Elems(o) + [key];
  }

  /**
   * arrayRemove: the same bucket when the key is absent; otherwise a fresh
   * bucket of `o[0] - 1` keys holding every other key in order.
   */
  method ArrayRemove(o: seq<int>, key: int, minAllocLen: int) returns (n: seq<int>)
    requires Wf(o) && minAllocLen >= 0
    requires Buckets.NoDup(Elems(o))
    ensures Wf(n)
    ensures Elems(n) == Buckets.ArrayRemove(Elems(o), key)
    ensures n == o <==> key !in Elems(o)
    ensures n != o ==> n[0] == o[0] - 1 && |n| == AllocLength(o[0] - 1, minAllocLen)
  {
    var found := ArrayContains(o, key);
    if !found {
      return o;
    }
    Buckets.WithoutLength(Elems(o), key);
    var a := AllocFset(o[0] - 1, minAllocLen);
    CopyWithout(o, key, a);
    n := a[..];
  }

  /** The copy loop of arrayRemove: every key of `o` but `key`, in order, into the fresh bucket `n`. */
  method CopyWithout(o: seq<int>, key: int, n: array<int>)
    requires Wf(o) && key in Elems(o) && Buckets.NoDup(Elems(o))
    requires n.Length >= o[0] && n[0] == o[0] - 1
    modifies n
    ensures Wf(n[..]) && n[0] == old(n[0])
    ensures Elems(n[..]) == Buckets.Without(Elems(o), key)
  {
    ghost var e := Elems(o);
    ghost var acc: seq<int> := [];
    var j := 1;
    var i := 1;
    while i <= o[0]
      invariant 1 <= i <= o[0] + 1
      invariant acc == Buckets.Without(e[..i - 1], key)
      invariant j == |acc| + 1 && |acc| <= n[0] == o[0] - 1
      invariant forall k :: 1 <= k < j ==> n[k] == acc[k - 1]
    {
      WithoutStep(e, key, i);
      if o[i] != key {
        n[j] := o[i];
        acc := acc + [o[i]];
        j := j + 1;
      }
      i := i + 1;
    }
    assert e[..o[0]] == e;
    Buckets.WithoutLength(e, key);
    assert Elems(n[..]) == acc;
  }

  /** One more key of the bucket filtered: it is appended unless it is the removed key, and the result still fits. */
  lemma WithoutStep(e: seq<int>, key: int, i: int)
    requires 1 <= i <= |e|
    requires key in e && Buckets.NoDup(e)
    ensures Buckets.Without(e[..i], key)
            == Buckets.Without(e[..i - 1], key) + (if e[i - 1] != key then [e[i - 1]] else [])
    ensures e[i - 1] != key ==> |Buckets.Without(e[..i - 1], key)| < |e| - 1
  {
    var p := e[..i];
    assert p[..|p| - 1] == e[..i - 1];
    if e[i - 1] != key {
      Buckets.WithoutLength(e, key);
      PrefixWithoutLength(e, key, i - 1);
    }
  }

  /** Filtering a prefix never yields more keys than filtering the whole bucket. */
  lemma {:induction false} PrefixWithoutLength(e: seq<int>, key: int, i: int)
    requires 0 <= i <= |e|
    ensures |Buckets.Without(e[..i], key)| <= |Buckets.Without(e, key)|
    ensures i < |e| && e[i] != key ==> |Buckets.Without(e[..i], key)| < |Buckets.Without(e, key)|
    decreases |e| - i
  {
    if i < |e| {
      PrefixWithoutLength(e, key, i + 1);
      var p := e[..i + 1];
      assert p[..|p| - 1] == e[..i];
    } else {
      assert e[..i] == e;
    }
  }

  /** split: the keys of `o` with `key % size == remainder`, counted first, then copied in order. */
  method Split(o: seq<int>, size: int, remainder: int, minAllocLen: int) returns (n: seq<int>)
    requires Wf(o) && size > 0 && minAllocLen >= 0
    ensures Wf(n)
    ensures Elems(n) == Buckets.Split(Elems(o), size, remainder)
    ensures |n| == AllocLength(n[0], minAllocLen)
  {
    ghost var e := Elems(o);
    var count := 0;
    var i := 1;
    while i <= o[0]
      invariant 1 <= i <= o[0] + 1
      invariant count == |Buckets.Split(e[..i - 1], size, remainder)|
    {
      assert e[..i][..|e[..i]| - 1] == e[..i - 1];
      if o[i] % size == remainder {
        count := count + 1;
      }
      i := i + 1;
    }
    assert e[..o[0]] == e;
    var a := AllocFset(count, minAllocLen);
    CopySplit(o, size, remainder, a);
    n := a[..];
  }

  /** The copy loop of split: the keys of `o` with `key % size == remainder`, in order, into the fresh bucket `n`. */
  method CopySplit(o: seq<int>, size: int, remainder: int, n: array<int>)
    requires Wf(o) && size > 0
    requires n.Length >= 1 && n[0] == |Buckets.Split(Elems(o), size, remainder)| < n.Length
    modifies n
    ensures Wf(n[..]) && n[0] == old(n[0])
    ensures Elems(n[..]) == Buckets.Split(Elems(o), size, remainder)
  {
    ghost var e := Elems(o);
    ghost var acc: seq<int> := [];
    var j := 1;
    var i := 1;
    while i <= o[0]
      invariant 1 <= i <= o[0] + 1
      invariant acc == Buckets.Split(e[..i - 1], size, remainder)
      invariant n[0] == |Buckets.Split(e, size, remainder)|
      invariant j == |acc| + 1 && |acc| <= n[0]
      invariant forall k :: 1 <= k < j ==> n[k] == acc[k - 1]
    {
      assert e[..i][..|e[..i]| - 1] == e[..i - 1];
      PrefixSplitLength(e, size, remainder, i - 1);
      if o[i] % size == remainder {
        n[j] := o[i];
        acc := acc + [o[i]];
        j := j + 1;
      }
      i := i + 1;
    }
    assert e[..o[0]] == e;
    assert Elems(n[..]) == acc;
  }

  /** Splitting a prefix never yields more keys than splitting the whole bucket. */
  lemma {:induction false} PrefixSplitLength(e: seq<int>, size: int, r: int, i: int)
    requires size > 0 && 0 <= i <= |e|
    ensures |Buckets.Split(e[..i], size, r)| <= |Buckets.Split(e, size, r)|
    ensures i < |e| && e[i] % size == r ==> |Buckets.Split(e[..i], size, r)| < |Buckets.Split(e, size, r)|
    decreases |e| - i
  {
    if i < |e| {
      PrefixSplitLength(e, size, r, i + 1);
      var p := e[..i + 1];
      assert p[..|p| - 1] == e[..i];
    } else {
      assert e[..i] == e;
    }
  }

  /** merge: a fresh bucket of `p[0] + q[0]` keys, those of `p` then those of `q`. */
  method Merge(p: seq<int>, q: seq<int>, minAllocLen: int) returns (n: seq<int>)
    requires Wf(p) && Wf(q) && minAllocLen >= 0
    ensures Wf(n)
    ensures n[0] == p[0] + q[0]
    ensures Elems(n) == Buckets.Merge(Elems(p), Elems(q))
    ensures |n| == AllocLength(p[0] + q[0], minAllocLen)
  {
    var a := AllocFset(p[0] + q[0], minAllocLen);
    CopyKeys(p, a, 0);
    CopyKeys(q, a, p[0]);
    n := a[..];
    assert forall k :: 0 <= k < n[0] ==> Elems(n)[k] == n[k + 1];
    assert Elems(n) == Elems(p) + Elems(q);
  }

  /** One copy loop of merge: the keys of `src` into `n[at + 1..at + src[0]]`; the length word and the keys before `at` stay. */
  method CopyKeys(src: seq<int>, n: array<int>, at: int)
    requires Wf(src) && 0 <= at && at + src[0] < n.Length
    modifies n
    ensures n[0] == old(n[0])
    ensures forall k :: 1 <= k <= at ==> n[k] == old(n[k])
    ensures forall k :: 1 <= k <= src[0] ==> n[at + k] == src[k]
  {
    var i := 1;
    while i <= src[0]
      invariant 1 <= i <= src[0] + 1
      invariant n[0] == old(n[0])
      invariant forall k :: 1 <= k <= at ==> n[k] == old(n[k])
      invariant forall k :: 1 <= k < i ==> n[at + k] == src[k]
    {
      n[at + i] := src[i];
      i := i + 1;
    }
  }

  /** `insert ? arrayInsert(o, key) : arrayRemove(o, key)`: the bucket with the key added or taken out. */
  method Rebuild(o: seq<int>, insert: bool, key: int, minAllocLen: int) returns (n: seq<int>)
    requires Wf(o) && minAllocLen >= 0 && Buckets.NoDup(Elems(o))
    ensures Wf(n)
    ensures Elems(n) == if insert then Buckets.ArrayInsert(Elems(o), key) else Buckets.ArrayRemove(Elems(o), key)
    ensures n == o <==> if insert then key in Elems(o) else key !in Elems(o)
  {
    if insert {
      n := ArrayInsert(o, key, minAllocLen);
    } else {
      n := ArrayRemove(o, key, minAllocLen);
    }
  }
}

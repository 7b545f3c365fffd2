/**
 * The bucket algebra shared by the three resizable hash sets: a bucket is
 * the sequence of keys it holds (a Java `int[]`, or the elements
 * `arr[1..arr[0]]` of a length-prefixed C++ array). Every function here is
 * written as the recursion over the prefix that the source's index loops
 * unroll into, so the imperative versions in module LengthPrefixed can be
 * proved against them one element at a time.
 *
 * Keys are non-negative, as in every benchmark driver, so the source's
 * truncating `%` agrees with Dafny's.
 */
module Buckets {
  import opened Powers

  /** No key occurs twice in a bucket. */
  predicate NoDup(o: seq<int>)
  {
    forall i, j :: 0 <= i < j < |o| ==> o[i] != o[j]
  }

  /** Every key of the bucket is non-negative and hashes to slot `i` of a `size`-slot table. */
  predicate AllHomeAt(o: seq<int>, size: int, i: int)
    requires size > 0
  {
    forall k :: k in o ==> k >= 0 && k % size == i
  }

  /** arrayContains: a linear scan of the bucket for `key`. */
  function ArrayContains(o: seq<int>, key: int): (b: bool)
    ensures b <==> key in o
  {
    if |o| == 0 then false
    else ArrayContains(o[..|o| - 1], key) || o[|o| - 1] == key
  }

  /**
   * arrayInsert: the bucket itself when the key is present, otherwise a
   * new bucket holding the old keys in order followed by the key.
   */
  function ArrayInsert(o: seq<int>, key: int): seq<int>
  {
    if ArrayContains(o, key) then o else o + [key]
  }

  /** The keys of `o` other than `key`, in their original order. */
  function Without(o: seq<int>, key: int): (r: seq<int>)
    ensures |r| <= |o|
    ensures forall k :: k in r <==> k in o && k != key
  {
    if |o| == 0 then []
    else Without(o[..|o| - 1], key) + (if o[|o| - 1] != key then [o[|o| - 1]] else [])
  }

  /**
   * arrayRemove: the bucket itself when the key is absent, otherwise a new
   * bucket holding every other key in order.
   */
  function ArrayRemove(o: seq<int>, key: int): seq<int>
  {
    if !ArrayContains(o, key) then o else Without(o, key)
  }

  /** split(o, size, remainder): the keys of `o` that hash to `remainder`, in order. */
  function Split(o: seq<int>, size: int, remainder: int): (r: seq<int>)
    requires size > 0
    ensures |r| <= |o|
    ensures forall k :: k in r <==> k in o && k % size == remainder
  {
    if |o| == 0 then []
    else Split(o[..|o| - 1], size, remainder)
         + (if o[|o| - 1] % size == remainder then [o[|o| - 1]] else [])
  }

  /** merge(p, q): the keys of `p` followed by the keys of `q`. */
  function Merge(p: seq<int>, q: seq<int>): seq<int>
  {
    p + q
  }

  // ---------------------------------------------------------------------
  // Properties of the single-bucket operations
  // ---------------------------------------------------------------------

  /**
   * arrayInsert either returns the bucket unchanged (key present) or the
   * bucket one longer with the key last; membership gains exactly the key.
   */
  lemma InsertSpec(o: seq<int>, key: int)
    ensures ArrayInsert(o, key) == o <==> key in o
    ensures key !in o ==> ArrayInsert(o, key) == o + [key]
    ensures forall k :: k in ArrayInsert(o, key) <==> k in o || k == key
    ensures NoDup(o) ==> NoDup(ArrayInsert(o, key))
  {
    if key !in o {
      assert |o + [key]| != |o|;
    }
  }

  /** The filter that arrayRemove performs drops exactly one element when the key occurs once. */
  lemma {:induction false} WithoutLength(o: seq<int>, key: int)
    requires NoDup(o)
    ensures |Without(o, key)| == if key in o then |o| - 1 else |o|
    ensures NoDup(Without(o, key))
    decreases |o|
  {
    if |o| > 0 {
      var init := o[..|o| - 1];
      assert NoDup(init);
      WithoutLength(init, key);
      assert key in o <==> key in init || o[|o| - 1] == key by {
        assert o == init + [o[|o| - 1]];
      }
      assert o[|o| - 1] == key ==> key !in init;
      if o[|o| - 1] != key {
        AppendNoDup(Without(init, key), o[|o| - 1]);
      }
    }
  }

  /**
   * arrayRemove on a duplicate-free bucket: unchanged exactly when the key
   * is absent, otherwise one shorter, without the key, still duplicate-free.
   */
  lemma RemoveSpec(o: seq<int>, key: int)
    requires NoDup(o)
    ensures ArrayRemove(o, key) == o <==> key !in o
    ensures |ArrayRemove(o, key)| == if key in o then |o| - 1 else |o|
    ensures forall k :: k in ArrayRemove(o, key) <==> k in o && k != key
    ensures NoDup(ArrayRemove(o, key))
  {
    WithoutLength(o, key);
  }

  /** Removing a key the bucket does not hold, after inserting it, restores the bucket. */
  lemma {:induction false} WithoutAppended(o: seq<int>, key: int)
    requires key !in o
    ensures Without(o + [key], key) == o
    decreases |o|
  {
    assert (o + [key])[..|o + [key]| - 1] == o;
    WithoutIdentity(o, key);
  }

  lemma {:induction false} WithoutIdentity(o: seq<int>, key: int)
    requires key !in o
    ensures Without(o, key) == o
    decreases |o|
  {
    if |o| > 0 {
      var init := o[..|o| - 1];
      assert key !in init by { assert forall k :: k in init ==> k in o; }
      WithoutIdentity(init, key);
      assert o == init + [o[|o| - 1]];
    }
  }

  /** Insert then remove of an absent key is the identity on the bucket. */
  lemma InsertRemoveRoundTrip(o: seq<int>, key: int)
    requires key !in o
    ensures ArrayRemove(ArrayInsert(o, key), key) == o
  {
    WithoutAppended(o, key);
  }

  /** split distributes over the concatenation of two buckets. */
  lemma {:induction false} SplitAppend(a: seq<int>, b: seq<int>, size: int, r: int)
    requires size > 0
    ensures Split(a + b, size, r) == Split(a, size, r) + Split(b, size, r)
    decreases |b|
  {
    if |b| == 0 {
      assert a + b == a;
    } else {
      var b' := b[..|b| - 1];
      assert (a + b)[..|a + b| - 1] == a + b';
      SplitAppend(a, b', size, r);
    }
  }

  /** split keeps every key of a bucket when all of its keys hash to the remainder. */
  lemma {:induction false} SplitAll(o: seq<int>, size: int, r: int)
    requires size > 0
    requires forall k :: k in o ==> k % size == r
    ensures Split(o, size, r) == o
    decreases |o|
  {
    if |o| > 0 {
      var init, last := o[..|o| - 1], o[|o| - 1];
      assert o == init + [last];
      forall k | k in init ensures k % size == r {
        assert k in o;
      }
      SplitAll(init, size, r);
      assert last in o;
    }
  }

  /** A subsequence-by-filter of a duplicate-free bucket is duplicate-free. */
  lemma {:induction false} SplitNoDup(o: seq<int>, size: int, r: int)
    requires size > 0
    requires NoDup(o)
    ensures NoDup(Split(o, size, r))
    decreases |o|
  {
    if |o| > 0 {
      var init := o[..|o| - 1];
      var last := o[|o| - 1];
      assert NoDup(init);
      SplitNoDup(init, size, r);
      assert last !in init by {
        forall k | 0 <= k < |init| ensures init[k] != last { assert o[k] != o[|o| - 1]; }
      }
      if last % size == r {
        AppendNoDup(Split(init, size, r), last);
      }
    }
  }

  /** Appending a fresh key keeps a bucket duplicate-free. */
  lemma AppendNoDup(w: seq<int>, x: int)
    requires NoDup(w) && x !in w
    ensures NoDup(w + [x])
  {
    forall i, j | 0 <= i < j < |w| + 1 ensures (w + [x])[i] != (w + [x])[j] {
      assert (w + [x])[i] == w[i];
      if j == |w| {
        assert w[i] in w;
      } else {
        assert (w + [x])[j] == w[j];
      }
    }
  }

  // ---------------------------------------------------------------------
  // Modular arithmetic behind split: a key at slot j of an m-slot table
  // lands in slot j or j + m of the 2m-slot table.
  // ---------------------------------------------------------------------

  lemma ModDouble(k: int, m: int)
    requires k >= 0 && m > 0
    ensures k % (2 * m) == k % m || k % (2 * m) == k % m + m
    ensures k % (2 * m) % m == k % m
  {
    var q := k / (2 * m);
    var r := k % (2 * m);
    assert k == (2 * m) * q + r;
    assert 0 <= r < 2 * m;
    assert k == m * (2 * q) + r;
    if r < m {
      ModUnique(k, m, 2 * q, r);
      ModUnique(r, m, 0, r);
    } else {
      assert k == m * (2 * q + 1) + (r - m);
      ModUnique(k, m, 2 * q + 1, r - m);
      ModUnique(r, m, 1, r - m);
    }
  }

  /** Euclidean division is unique: k = m*q + r with 0 <= r < m gives k % m == r. */
  lemma ModUnique(k: int, m: int, q: int, r: int)
    requires m > 0 && 0 <= r < m && k == m * q + r
    ensures k % m == r
  {
    var q' := k / m;
    var r' := k % m;
    assert k == m * q' + r';
    assert m * (q - q') == r' - r;
    if q > q' {
      assert m * (q - q') >= m by { MulAtLeast(m, q - q'); }
    } else if q < q' {
      assert m * (q' - q) >= m by { MulAtLeast(m, q' - q); }
    }
  }

  lemma MulAtLeast(m: int, d: int)
    requires m > 0 && d >= 1
    ensures m * d >= m
  {
  }

  /** The two halves produced by splitting one bucket into slots j and j+m together are the bucket. */
  lemma {:induction false} SplitHalves(o: seq<int>, m: int, size: int, j: int)
    requires m > 0 && size == 2 * m && 0 <= j < m
    requires AllHomeAt(o, m, j)
    ensures multiset(Split(o, size, j)) + multiset(Split(o, size, j + m)) == multiset(o)
    decreases |o|
  {
    if |o| > 0 {
      var init := o[..|o| - 1];
      var last := o[|o| - 1];
      assert o == init + [last];
      assert forall k :: k in init ==> k in o;
      SplitHalves(init, m, size, j);
      assert last in o;
      ModDouble(last, m);
      var a := if last % size == j then [last] else [];
      var b := if last % size == j + m then [last] else [];
      assert Split(o, size, j) == Split(init, size, j) + a;
      assert Split(o, size, j + m) == Split(init, size, j + m) + b;
      assert multiset(a) + multiset(b) == multiset{last};
      assert multiset(Split(o, size, j)) == multiset(Split(init, size, j)) + multiset(a);
      assert multiset(Split(o, size, j + m)) == multiset(Split(init, size, j + m)) + multiset(b);
      assert multiset(o) == multiset(init) + multiset{last};
    }
  }

  // ---------------------------------------------------------------------
  // Whole generations: a table of buckets, and its migration into the next
  // generation by helpResize (split when growing, merge when shrinking).
  // ---------------------------------------------------------------------

  /** Every key of every bucket sits in its home slot `key % |g|`. */
  predicate WellPlaced(g: seq<seq<int>>)
  {
    |g| > 0 && forall i :: 0 <= i < |g| ==> AllHomeAt(g[i], |g|, i)
  }

  /** The migrated slot `i` of a `size`-slot generation whose predecessor is `s`. */
  function MigratedSlot(s: seq<seq<int>>, size: int, i: int): seq<int>
    requires |s| > 0 && size > 0 && 0 <= i < size
    requires |s| * 2 == size || |s| == size * 2
  {
    if |s| * 2 == size then Split(s[i % |s|], size, i)
    else Merge(s[i], s[i + size])
  }

  /** The generation obtained once every slot has been migrated from `s`. */
  function Migrated(s: seq<seq<int>>, size: int): (t: seq<seq<int>>)
    requires |s| > 0 && size > 0
    requires |s| * 2 == size || |s| == size * 2
    ensures |t| == size
    ensures forall i :: 0 <= i < size ==> t[i] == MigratedSlot(s, size, i)
  {
    seq(size, i requires 0 <= i < size => MigratedSlot(s, size, i))
  }

  /** The multiset of all keys held by the buckets `g[lo..hi]`. */
  function KeysIn(g: seq<seq<int>>, lo: int, hi: int): multiset<int>
    requires 0 <= lo <= hi <= |g|
    decreases hi - lo
  {
    if lo == hi then multiset{} else KeysIn(g, lo, hi - 1) + multiset(g[hi - 1])
  }

  /** All keys of a generation. */
  function AllKeys(g: seq<seq<int>>): multiset<int>
  {
    KeysIn(g, 0, |g|)
  }

  lemma {:induction false} KeysInSplitRange(g: seq<seq<int>>, lo: int, mid: int, hi: int)
    requires 0 <= lo <= mid <= hi <= |g|
    ensures KeysIn(g, lo, hi) == KeysIn(g, lo, mid) + KeysIn(g, mid, hi)
    decreases hi - mid
  {
    if mid < hi {
      KeysInSplitRange(g, lo, mid, hi - 1);
    }
  }

  /** A key is in a well-placed generation exactly when its home bucket holds it. */
  lemma {:induction false} KeysInMembership(g: seq<seq<int>>, lo: int, hi: int, k: int)
    requires 0 <= lo <= hi <= |g|
    ensures k in KeysIn(g, lo, hi) <==> exists i :: lo <= i < hi && k in g[i]
    decreases hi - lo
  {
    if lo < hi {
      KeysInMembership(g, lo, hi - 1, k);
      if k in g[hi - 1] {
        assert exists i :: lo <= i < hi && k in g[i];
      }
    }
  }

  /** Slots j and j + |s| of t together hold the keys of slot j of s. */
  predicate HalvesOf(t: seq<seq<int>>, s: seq<seq<int>>, j: int)
    requires 0 <= j < |s| && |t| == 2 * |s|
  {
    multiset(t[j]) + multiset(t[j + |s|]) == multiset(s[j])
  }

  /** Two multiset sums that agree part by part agree as a whole. */
  lemma Interleave(a: multiset<int>, b: multiset<int>, c: multiset<int>, x: multiset<int>, y: multiset<int>, z: multiset<int>)
    requires a + b == c && x + y == z
    ensures (a + x) + (b + y) == c + z
  {
    assert (a + x) + (b + y) == (a + b) + (x + y);
  }

  /** Slot i of t holds the keys of slots i and i + |t| of s. */
  predicate MergedOf(t: seq<seq<int>>, s: seq<seq<int>>, i: int)
    requires 0 <= i < |t| && |s| == 2 * |t|
  {
    multiset(t[i]) == multiset(s[i]) + multiset(s[i + |t|])
  }

  /** Growing: the slot pairs (j, j + m) together hold what source slot j held. */
  lemma {:induction false} GrownKeys(s: seq<seq<int>>, t: seq<seq<int>>, n: int)
    requires |t| == 2 * |s| && 0 <= n <= |s|
    requires forall j :: 0 <= j < |s| ==> HalvesOf(t, s, j)
    ensures KeysIn(t, 0, n) + KeysIn(t, |s|, |s| + n) == KeysIn(s, 0, n)
    decreases n
  {
    if n > 0 {
      GrownKeys(s, t, n - 1);
      var m := |s|;
      var j := n - 1;
      assert HalvesOf(t, s, j);
      var a, b, c := KeysIn(t, 0, j), KeysIn(t, m, m + j), KeysIn(s, 0, j);
      assert KeysIn(t, 0, n) == a + multiset(t[j]);
      assert KeysIn(t, m, m + n) == b + multiset(t[j + m]);
      assert KeysIn(s, 0, n) == c + multiset(s[j]);
      Interleave(a, b, c, multiset(t[j]), multiset(t[j + m]), multiset(s[j]));
    }
  }

  /** Shrinking: new slot i holds what source slots i and i + size held. */
  lemma {:induction false} ShrunkKeys(s: seq<seq<int>>, t: seq<seq<int>>, n: int)
    requires |s| == 2 * |t| && 0 <= n <= |t|
    requires forall i :: 0 <= i < |t| ==> MergedOf(t, s, i)
    ensures KeysIn(t, 0, n) == KeysIn(s, 0, n) + KeysIn(s, |t|, |t| + n)
    decreases n
  {
    if n > 0 {
      ShrunkKeys(s, t, n - 1);
      var m, j := |t|, n - 1;
      assert MergedOf(t, s, j);
      var a, b, c := KeysIn(t, 0, j), KeysIn(s, 0, j), KeysIn(s, m, m + j);
      assert KeysIn(t, 0, n) == a + multiset(t[j]);
      assert KeysIn(s, 0, n) == b + multiset(s[j]);
      assert KeysIn(s, m, m + n) == c + multiset(s[j + m]);
      Interleave(b, c, a, multiset(s[j]), multiset(s[j + m]), multiset(t[j]));
    }
  }

  /**
   * Migration correctness: once every slot of the new generation has been
   * filled from the old one, the new generation holds exactly the keys of
   * the old one (as a multiset), and each key sits in its home slot of the
   * new size.
   */
  lemma MigrationPreservesKeys(s: seq<seq<int>>, size: int)
    requires WellPlaced(s)
    requires |s| * 2 == size || |s| == size * 2
    ensures WellPlaced(Migrated(s, size))
    ensures AllKeys(Migrated(s, size)) == AllKeys(s)
  {
    MigratedKeys(s, size);
    MigratedWellPlaced(s, size);
  }

  lemma MigratedKeys(s: seq<seq<int>>, size: int)
    requires WellPlaced(s)
    requires |s| * 2 == size || |s| == size * 2
    ensures AllKeys(Migrated(s, size)) == AllKeys(s)
  {
    if |s| * 2 == size {
      GrownAllKeys(s, size);
    } else {
      ShrunkAllKeys(s, size);
    }
  }

  /** Growing keeps the multiset of keys. */
  lemma GrownAllKeys(s: seq<seq<int>>, size: int)
    requires WellPlaced(s) && |s| * 2 == size
    ensures AllKeys(Migrated(s, size)) == AllKeys(s)
  {
    forall j | 0 <= j < |s| ensures HalvesOf(Migrated(s, size), s, j) {
      GrownHalves(s, size, j);
    }
    HalvesSum(s, Migrated(s, size));
  }

  /** A table whose slot pairs (j, j + |s|) hold the keys of slot j of s holds all the keys of s. */
  lemma HalvesSum(s: seq<seq<int>>, t: seq<seq<int>>)
    requires |t| == 2 * |s|
    requires forall j :: 0 <= j < |s| ==> HalvesOf(t, s, j)
    ensures AllKeys(t) == AllKeys(s)
  {
    GrownKeys(s, t, |s|);
    KeysInSplitRange(t, 0, |s|, |t|);
  }

  /** Growing: the two new slots of old slot j hold exactly its keys. */
  lemma GrownHalves(s: seq<seq<int>>, size: int, j: int)
    requires WellPlaced(s) && |s| * 2 == size && 0 <= j < |s|
    ensures HalvesOf(Migrated(s, size), s, j)
  {
    GrownSlot(s, size, j, j, 0);
    GrownSlot(s, size, j + |s|, j, 1);
    assert AllHomeAt(s[j], |s|, j);
    SplitHalves(s[j], |s|, size, j);
  }

  /** Shrinking keeps the multiset of keys. */
  lemma ShrunkAllKeys(s: seq<seq<int>>, size: int)
    requires |s| > 0 && |s| == size * 2
    ensures AllKeys(Migrated(s, size)) == AllKeys(s)
  {
    var t := Migrated(s, size);
    forall i | 0 <= i < |t| ensures MergedOf(t, s, i) {
      ShrunkSlot(s, size, i);
    }
    MergedSum(s, t);
  }

  /** A table whose slot i holds the keys of slots i and i + |t| of s holds all the keys of s. */
  lemma MergedSum(s: seq<seq<int>>, t: seq<seq<int>>)
    requires |s| == 2 * |t|
    requires forall i :: 0 <= i < |t| ==> MergedOf(t, s, i)
    ensures AllKeys(t) == AllKeys(s)
  {
    ShrunkKeys(s, t, |t|);
    KeysInSplitRange(s, 0, |t|, |s|);
  }

  /** When shrinking, new slot i is the merge of old slots i and i + size. */
  lemma ShrunkSlot(s: seq<seq<int>>, size: int, i: int)
    requires |s| > 0 && |s| == size * 2 && 0 <= i < size
    ensures MergedOf(Migrated(s, size), s, i)
  {
    var t := Migrated(s, size);
    assert |s| * 2 != size;
    assert t[i] == MigratedSlot(s, size, i) == s[i] + s[i + size];
  }

  /** When growing, new slot i = j + q*|s| is split from old slot j. */
  lemma GrownSlot(s: seq<seq<int>>, size: int, i: int, j: int, q: int)
    requires |s| > 0 && |s| * 2 == size
    requires 0 <= j < |s| && (q == 0 || q == 1) && i == j + q * |s|
    ensures 0 <= i < size
    ensures Migrated(s, size)[i] == Split(s[j], size, i)
  {
    ModUnique(i, |s|, q, j);
    assert Migrated(s, size)[i] == MigratedSlot(s, size, i);
  }

  lemma MigratedWellPlaced(s: seq<seq<int>>, size: int)
    requires WellPlaced(s)
    requires |s| * 2 == size || |s| == size * 2
    ensures WellPlaced(Migrated(s, size))
  {
    var t := Migrated(s, size);
    forall i | 0 <= i < size ensures AllHomeAt(t[i], size, i) {
      MigratedSlotHome(s, size, i);
    }
  }

  /** Each migrated slot keeps the keys at home: split by the filter, merge by the halving. */
  lemma MigratedSlotHome(s: seq<seq<int>>, size: int, i: int)
    requires WellPlaced(s)
    requires |s| * 2 == size || |s| == size * 2
    requires 0 <= i < size
    ensures AllHomeAt(MigratedSlot(s, size, i), size, i)
  {
    if |s| * 2 != size {
      forall k | k in s[i + size] ensures k % size == i {
        assert k % (2 * size) == i + size;
        ModDouble(k, size);
        assert (i + size) % size == i by { ModUnique(i + size, size, 1, i); }
      }
      forall k | k in s[i] ensures k % size == i {
        ModDouble(k, size);
      }
    } else {
      forall k | k in s[i % |s|] ensures k >= 0 { }
    }
  }

  /** Migration of one slot keeps buckets duplicate-free. */
  lemma MigratedSlotNoDup(s: seq<seq<int>>, size: int, i: int)
    requires WellPlaced(s)
    requires forall j :: 0 <= j < |s| ==> NoDup(s[j])
    requires |s| * 2 == size || |s| == size * 2
    requires 0 <= i < size
    ensures NoDup(MigratedSlot(s, size, i))
  {
    if |s| * 2 == size {
      SplitNoDup(s[i % |s|], size, i);
    } else {
      var p, q := s[i], s[i + size];
      forall a, b | 0 <= a < b < |p + q| ensures (p + q)[a] != (p + q)[b] {
        if a < |p| && b >= |p| {
          assert p[a] in p && q[b - |p|] in q;
          assert q[b - |p|] % |s| == i + size;
        }
      }
    }
  }

  // ---------------------------------------------------------------------
  // The set of keys a generation holds, and how a one-slot update moves it.
  // ---------------------------------------------------------------------

  /** The keys of a generation, as a set. */
  ghost function KeySet(g: seq<seq<int>>): set<int>
  {
    set k | k in AllKeys(g)
  }

  /** In a well-placed generation a key is present exactly when its home bucket holds it. */
  lemma MemberHome(g: seq<seq<int>>, k: int)
    requires WellPlaced(g)
    ensures k in KeySet(g) <==> k >= 0 && k in g[k % |g|]
  {
    KeysInMembership(g, 0, |g|, k);
    if k in KeySet(g) {
      var i :| 0 <= i < |g| && k in g[i];
      assert AllHomeAt(g[i], |g|, i);
    }
  }

  /** Replacing the home bucket of `key` by a bucket that differs only in `key`. */
  lemma UpdateHome(g: seq<seq<int>>, i: int, b: seq<int>, key: int)
    requires WellPlaced(g) && 0 <= i < |g|
    requires key >= 0 && key % |g| == i
    requires forall k :: k in b <==> (k in g[i] && k != key) || (k == key && key in b)
    ensures WellPlaced(g[i := b])
    ensures key in b ==> KeySet(g[i := b]) == KeySet(g) + {key}
    ensures key !in b ==> KeySet(g[i := b]) == KeySet(g) - {key}
  {
    var h := g[i := b];
    assert AllHomeAt(g[i], |g|, i);
    assert AllHomeAt(b, |g|, i);
    assert WellPlaced(h) by {
      forall j | 0 <= j < |h| ensures AllHomeAt(h[j], |h|, j) {
        if j != i { assert h[j] == g[j]; }
      }
    }
    forall k ensures k in KeySet(h) <==> if k == key then key in b else k in KeySet(g) {
      MemberHome(g, k);
      MemberHome(h, k);
    }
  }

  /** Applying arrayInsert to the home bucket adds exactly the key to the generation. */
  lemma InsertKeySet(g: seq<seq<int>>, key: int)
    requires WellPlaced(g) && key >= 0
    ensures WellPlaced(g[key % |g| := ArrayInsert(g[key % |g|], key)])
    ensures KeySet(g[key % |g| := ArrayInsert(g[key % |g|], key)]) == KeySet(g) + {key}
  {
    InsertSpec(g[key % |g|], key);
    UpdateHome(g, key % |g|, ArrayInsert(g[key % |g|], key), key);
  }

  /** Applying arrayRemove to the home bucket removes exactly the key from the generation. */
  lemma RemoveKeySet(g: seq<seq<int>>, key: int)
    requires WellPlaced(g) && key >= 0 && NoDup(g[key % |g|])
    ensures WellPlaced(g[key % |g| := ArrayRemove(g[key % |g|], key)])
    ensures KeySet(g[key % |g| := ArrayRemove(g[key % |g|], key)]) == KeySet(g) - {key}
  {
    RemoveSpec(g[key % |g|], key);
    UpdateHome(g, key % |g|, ArrayRemove(g[key % |g|], key), key);
  }

  /** Migration keeps the set of keys (a corollary of the multiset statement). */
  lemma MigrationKeySet(s: seq<seq<int>>, size: int)
    requires WellPlaced(s)
    requires |s| * 2 == size || |s| == size * 2
    ensures WellPlaced(Migrated(s, size))
    ensures KeySet(Migrated(s, size)) == KeySet(s)
  {
    MigrationPreservesKeys(s, size);
  }

  /** Migration keeps every bucket duplicate-free. */
  lemma MigrationNoDup(s: seq<seq<int>>, size: int)
    requires WellPlaced(s)
    requires forall j :: 0 <= j < |s| ==> NoDup(s[j])
    requires |s| * 2 == size || |s| == size * 2
    ensures forall j :: 0 <= j < size ==> NoDup(Migrated(s, size)[j])
  {
    forall j | 0 <= j < size ensures NoDup(Migrated(s, size)[j]) {
      MigratedSlotNoDup(s, size, j);
    }
  }

  /**
   * A lookup that finds the new home slot still empty reads the previous
   * generation's home slot instead: the two agree on every key.
   */
  lemma MigratedHome(s: seq<seq<int>>, size: int, key: int)
    requires WellPlaced(s) && key >= 0
    requires |s| * 2 == size || |s| == size * 2
    ensures key in s[key % |s|] <==> key in MigratedSlot(s, size, key % size)
  {
    var m, i := |s|, key % size;
    if m * 2 == size {
      ModDouble(key, m);
      assert i % m == key % m;
    } else {
      ModDouble(key, size);
      var k := key % m;
      assert k == i || k == i + size;
      assert AllHomeAt(s[i], m, i) && AllHomeAt(s[i + size], m, i + size);
    }
  }

  /**
   * The ghost picture of a resizable table: head.size == 2^level, the keys of each
   * head slot, and the keys of each slot of the previous generation (empty
   * when there is none).
   */
  datatype Picture = Picture(level: nat, view: seq<seq<int>>, oldView: seq<seq<int>>)

  /** What adding or removing one key at its home slot does to a generation. */
  lemma ResolvedSlot(g: seq<seq<int>>, insert: bool, key: int, n: seq<int>)
    requires WellPlaced(g) && key >= 0
    requires forall j :: 0 <= j < |g| ==> NoDup(g[j])
    requires n == if insert then ArrayInsert(g[key % |g|], key) else ArrayRemove(g[key % |g|], key)
    ensures WellPlaced(g[key % |g| := n]) && NoDup(n)
    ensures KeySet(g[key % |g| := n]) == if insert then KeySet(g) + {key} else KeySet(g) - {key}
    ensures n == g[key % |g|] <==> if insert then key in KeySet(g) else key !in KeySet(g)
  {
    MemberHome(g, key);
    InsertSpec(g[key % |g|], key);
    RemoveSpec(g[key % |g|], key);
    if insert {
      InsertKeySet(g, key);
    } else {
      RemoveKeySet(g, key);
    }
  }

  predicate GoodGeneration(g: seq<seq<int>>, size: int)
  {
    |g| == size && WellPlaced(g) && forall j :: 0 <= j < |g| ==> NoDup(g[j])
  }

  /** A migrated generation is again a good one, of the new size, with the same keys. */
  lemma MigrationGood(s: seq<seq<int>>, size: int)
    requires GoodGeneration(s, |s|)
    requires |s| * 2 == size || |s| == size * 2
    ensures GoodGeneration(Migrated(s, size), size)
    ensures KeySet(Migrated(s, size)) == KeySet(s)
  {
    MigrationKeySet(s, size);
    MigrationNoDup(s, size);
  }

  // ---------------------------------------------------------------------
  // Table sizes: every generation has 2^level slots.
  // ---------------------------------------------------------------------

  lemma Pow2Sixteen()
    ensures Pow2(16) == 0x1_0000
  {
    assert Pow2(4) == 16;
    assert Pow2(8) == 256;
    assert Pow2(12) == 4096;
  }

  /**
   * Between levels 0 and 16 (MIN_BUCKET_NUM = 1 and MAX_BUCKET_NUM = 1 << 16)
   * the size identifies the level at both bounds, and a size above 1 halves exactly.
   */
  lemma Pow2Bounds(k: nat)
    requires k <= 16
    ensures Pow2(k) <= 0x1_0000
    ensures Pow2(k) == 0x1_0000 <==> k == 16
    ensures Pow2(k) == 1 <==> k == 0
    ensures k > 0 ==> Pow2(k) % 2 == 0 && Pow2(k) / 2 == Pow2(k - 1)
  {
    Pow2Sixteen();
    if k < 16 {
      Pow2Monotone(k, 16);
    }
    if k > 0 {
      Pow2Monotone(0, k);
      assert Pow2(k) == 2 * Pow2(k - 1);
    }
  }
}

/**
 * The resizable hash set of AdaptiveArrayHashSetOpt, run by one thread.
 *
 * A table generation (HNode) is an array of buckets plus a pointer to the
 * previous generation. A bucket (FSet) is an immutable key array with an
 * operation record attached: an attached INSERT/REMOVE is applied by
 * helpFinish, which installs a fresh FSet; an attached FREEZE makes the
 * bucket immutable. After a resize the new generation starts with every
 * slot empty (null) and fills a slot lazily from the frozen buckets of the
 * previous generation (helpResize).
 *
 * Sequentially a compare-and-set always succeeds, the helping loops run
 * once, and between operations no bucket carries a pending operation.
 * Each slot's logical bucket is kept in the ghost sequence `view` (an empty
 * slot's is the one migration would produce), and `Contents` is the set
 * of keys of that generation.
 */
module AdaptiveHashSet {
  import opened Powers
  import opened Buckets

  const MIN_BUCKET_NUM := 1
  const MAX_BUCKET_NUM := 0x1_0000
  /** Long.MAX_VALUE: the priority of a resolved operation. */
  const MAX_VALUE := 0x7FFF_FFFF_FFFF_FFFF

  datatype OpType = InsertOp | RemoveOp | FreezeOp

  /** An operation record: what to do to which key, and its outcome once resolved. */
  class WFArrayOp {
    const key: int
    const kind: OpType
    var priority: int
    var resp: int

    constructor (key: int, kind: OpType)
      ensures this.key == key && this.kind == kind
      ensures priority == 0 && resp == 0
    {
      this.key := key;
      this.kind := kind;
      priority := 0;
      resp := 0;
    }

    /** Record the response and mark the operation resolved. */
    method Finish(r: int)
      modifies this
      ensures resp == r && priority == MAX_VALUE
    {
      resp := r;
      priority := MAX_VALUE;
    }
  }

  /**
   * A bucket: an immutable key array and the operation attached to it. The
   * ghost `table` and `slot` record where the bucket was installed.
   */
  class FSet {
    const arr: seq<int>
    var op: WFArrayOp?
    ghost const table: HNode
    ghost const slot: int

    constructor (a: seq<int>, ghost table: HNode, ghost slot: int)
      ensures arr == a && op == null
      ensures this.table == table && this.slot == slot
    {
      arr := a;
      op := null;
      this.table := table;
      this.slot := slot;
    }

    /** immutable(): a FREEZE operation is attached. */
    predicate Immutable()
      reads this, op
    {
      op != null && op.kind == FreezeOp
    }
  }

  /** A table generation. */
  class HNode {
    var oldNode: HNode?
    const size: int
    const buckets: array<FSet?>
    const fflags: array<int>

    constructor (o: HNode?, s: nat)
      ensures oldNode == o && size == s
      ensures fresh(buckets) && fresh(fflags)
      ensures buckets.Length == s && fflags.Length == s
      ensures forall j :: 0 <= j < s ==> buckets[j] == null && fflags[j] == 0
    {
      oldNode := o;
      size := s;
      buckets := new FSet?[s](_ => null);
      fflags := new int[s](_ => 0);
    }

    /** Both arrays have one entry per slot. */
    predicate Sized()
    {
      buckets.Length == size && fflags.Length == size
    }

    /** No slot is being frozen. */
    predicate FlagsClear()
      reads fflags
    {
      forall j :: 0 <= j < fflags.Length ==> fflags[j] == 0
    }
  }

  /**
   * hasMember: a pending operation on the same key answers for the bucket
   * (INSERT: present, REMOVE: absent); otherwise the key array does.
   */
  function HasMember(fset: FSet, key: int): (r: bool)
    reads fset
    ensures fset.op == null || fset.op.key != key ==> (r <==> key in fset.arr)
  {
    var op := fset.op;
    if op != null && op.key == key then op.kind == InsertOp
    else ArrayContains(fset.arr, key)
  }

  /** The keys the bucket holds once its attached operation has taken effect. */
  function Resolved(fset: FSet): seq<int>
    reads fset
  {
    if fset.op == null || fset.op.kind == FreezeOp then fset.arr
    else if fset.op.kind == InsertOp then ArrayInsert(fset.arr, fset.op.key)
    else ArrayRemove(fset.arr, fset.op.key)
  }

  /**
   * hasMember answers as if the attached operation had already been applied:
   * a pending operation is linearised before the read.
   */
  lemma HasMemberResolved(fset: FSet, key: int)
    requires key >= 0 && NoDup(fset.arr)
    requires fset.op != null && fset.op.kind == FreezeOp ==> fset.op.key < 0
    ensures HasMember(fset, key) <==> key in Resolved(fset)
  {
    if fset.op != null && fset.op.kind != FreezeOp {
      InsertSpec(fset.arr, fset.op.key);
      RemoveSpec(fset.arr, fset.op.key);
    }
  }

  /**
   * Slot j of generation t holds b: null, or a bucket installed at that slot
   * with the given keys and at most an INSERT/REMOVE attached.
   */
  ghost predicate HeadSlot(t: HNode, j: int, b: FSet?, keys: seq<int>)
    reads b
  {
    b != null ==> b.table == t && b.slot == j && b.arr == keys && (b.op != null ==> b.op.kind != FreezeOp)
  }

  /** Slot j of a previous generation o holds a bucket with the given keys that is at most frozen. */
  ghost predicate OldSlot(o: HNode, j: int, b: FSet?, keys: seq<int>)
    reads b
  {
    b != null && b.table == o && b.slot == j && b.arr == keys
    && (b.op != null ==> b.op.kind == FreezeOp && b.op.key == -1)
  }

  /**
   * The head generation h within footprint r: h.size == 2^level, the
   * logical buckets form a good generation, no freeze flag is raised and
   * every filled slot holds a bucket installed there with the slot's keys.
   */
  ghost predicate HeadShape(h: HNode, p: Picture, r: set<object>)
    reads r
  {
    h in r && h.buckets in r && h.fflags in r
    && p.level <= 16 && h.size == Pow2(p.level) && h.Sized()
    && GoodGeneration(p.view, h.size)
    && h.FlagsClear()
    && (forall j :: 0 <= j < h.size ==>
          (h.buckets[j] != null ==> h.buckets[j] in r) && HeadSlot(h, j, h.buckets[j], p.view[j]))
  }

  /**
   * The previous generation of h: without one every head slot is filled;
   * with one, it is a different, good generation of half or double the
   * size whose slots hold its logical buckets, and an empty head slot's
   * keys are what migrating those buckets produces.
   */
  ghost predicate OldShape(h: HNode, p: Picture, r: set<object>)
    reads r
    requires HeadShape(h, p, r)
  {
    var o := h.oldNode;
    (o == null ==> forall j :: 0 <= j < h.size ==> h.buckets[j] != null)
    && (o != null ==>
          o in r && o.buckets in r && o.fflags in r && o != h && o.oldNode == null
          && o.buckets != h.buckets && o.fflags != h.fflags
          && o.Sized()
          && (o.size * 2 == h.size || o.size == h.size * 2)
          && GoodGeneration(p.oldView, o.size)
          && (forall j :: 0 <= j < o.size ==> o.buckets[j] in r && OldSlot(o, j, o.buckets[j], p.oldView[j]))
          && (forall j {:trigger MigratedSlot(p.oldView, h.size, j)} ::
                0 <= j < h.size && h.buckets[j] == null ==> p.view[j] == MigratedSlot(p.oldView, h.size, j)))
  }

  /** No bucket of the head generation h carries an operation. */
  ghost predicate NoPending(h: HNode, p: Picture, r: set<object>)
    reads r
    requires HeadShape(h, p, r)
  {
    forall j :: 0 <= j < h.size && h.buckets[j] != null ==> h.buckets[j].op == null
  }

  class HashSet {
    var head: HNode
    /**
     * head.size == 2^pic.level (one more per successful grow, one less per
     * shrink), the logical bucket of each head slot, and the buckets of
     * head.oldNode when there is one.
     */
    ghost var pic: Picture
    ghost var Repr: set<object>

    /** The keys of the set: those of the head generation's logical buckets. */
    ghost function Contents(): set<int>
      reads this
    {
      KeySet(pic.view)
    }

    /** The representation invariant without the no-pending-operation part. */
    ghost predicate Structure()
      reads this, Repr
    {
      this in Repr && HeadShape(head, pic, Repr - {this}) && OldShape(head, pic, Repr - {this})
    }

    /** No head bucket carries an operation: the state between two operations. */
    ghost predicate Quiescent()
      reads this, Repr
      requires Structure()
    {
      NoPending(head, pic, Repr - {this})
    }

    ghost predicate Valid()
      reads this, Repr
    {
      Structure() && Quiescent()
    }

    /** The set starts with one empty bucket and no previous generation. */
    constructor ()
      ensures Valid() && fresh(Repr)
      ensures Contents() == {} && pic.level == 0 && head.size == MIN_BUCKET_NUM
    {
      var t := new HNode(null, MIN_BUCKET_NUM);
      var b := new FSet([], t, 0);
      t.buckets[0] := b;
      head := t;
      pic := Picture(0, [[]], []);
      Repr := {this, t, t.buckets, t.fflags, b};
      new;
      assert AllKeys(pic.view) == multiset{};
    }

    /** getBucketSize: the number of slots of the current generation. */
    function GetBucketSize(): (n: int)
      reads this, Repr
      requires Valid()
      ensures n == Pow2(pic.level)
      ensures MIN_BUCKET_NUM <= n <= MAX_BUCKET_NUM
    {
      Pow2Bounds(pic.level);
      head.size
    }

    /**
     * contains: read the home slot, or the previous generation's home slot
     * when the head slot is still empty.
     */
    method Contains(key: int) returns (r: bool)
      requires Valid() && key >= 0
      ensures r <==> key in Contents()
    {
      var t := head;
      var i := key % t.size;
      MemberHome(pic.view, key);
      var b := t.buckets[i];
      if b == null {
        var s := t.oldNode;
        if s == null {
          // Valid(): without a previous generation every slot is filled.
          assert false;
        } else {
          var k := key % s.size;
          b := s.buckets[k];
          assert OldSlot(s, k, b, pic.oldView[k]);
          OldHomeSlot(key);
          r := HasMember(b, key);
        }
      } else {
        assert HeadSlot(t, i, b, pic.view[i]);
        r := HasMember(b, key);
      }
    }

    /** The previous generation's home slot holds a key exactly when the empty head slot would. */
    lemma OldHomeSlot(key: int)
      requires Valid() && key >= 0
      requires head.oldNode != null && head.buckets[key % head.size] == null
      ensures key in pic.oldView[key % |pic.oldView|] <==> key in pic.view[key % head.size]
    {
      assert pic.view[key % head.size] == MigratedSlot(pic.oldView, head.size, key % head.size);
      MigratedHome(pic.oldView, head.size, key);
    }

    /**
     * freezeBucket(s, j): raise the freeze flag of slot j of the previous
     * generation, then freeze its bucket; answer the bucket's keys.
     */
    method FreezeBucket(s: HNode, j: int) returns (a: seq<int>)
      requires Structure() && s == head.oldNode && 0 <= j < s.size
      modifies s.fflags, s.buckets[j]
      ensures Structure() && (old(Quiescent()) ==> Quiescent())
      ensures a == pic.oldView[j] && s.fflags[j] == 1
      ensures s.buckets[j] != null && s.buckets[j].Immutable()
    {
      s.fflags[j] := 1;
      a := DoFreeze(s, j);
    }

    /**
     * doFreeze(s, j): attach a FREEZE record to the bucket, which carries no
     * other operation; a bucket already frozen is left as it is.
     */
    method DoFreeze(s: HNode, j: int) returns (a: seq<int>)
      requires Structure() && s == head.oldNode && 0 <= j < s.size
      modifies s.buckets[j]
      ensures Structure() && (old(Quiescent()) ==> Quiescent())
      ensures a == pic.oldView[j] && s.buckets[j] != null && s.buckets[j].Immutable()
      ensures old(s.buckets[j].Immutable()) ==> unchanged(s.buckets[j])
    {
      var h := new WFArrayOp(-1, FreezeOp);
      var fset := s.buckets[j];
      assert OldSlot(s, j, fset, pic.oldView[j]);
      if !fset.Immutable() {
        // No operation is attached (OldSlot), so the CAS from null succeeds.
        fset.op := h;
        assert forall k :: 0 <= k < head.size ==> head.buckets[k] != fset by {
          forall k | 0 <= k < head.size ensures head.buckets[k] != fset {
            assert old(HeadSlot(head, k, head.buckets[k], pic.view[k]));
          }
        }
      }
      a := fset.arr;
    }

    /**
     * helpResize(t, i): an empty slot of the head is filled from the frozen
     * bucket(s) of the previous generation: the split of slot i % s.size
     * when growing, the merge of slots i and i + t.size when shrinking.
     */
    method HelpResize(t: HNode, i: int)
      requires Valid() && t == head && 0 <= i < t.size
      modifies Repr
      ensures Valid() && Repr >= old(Repr) && fresh(Repr - old(Repr))
      ensures head == old(head) && head.oldNode == old(head.oldNode) && pic == old(pic)
      ensures head.buckets[i] != null
      ensures forall j :: 0 <= j < head.size && j != i ==> head.buckets[j] == old(head.buckets[j])
      ensures old(head.buckets[i]) != null ==> head.buckets[i] == old(head.buckets[i])
      ensures old(head.buckets[i]) == null ==>
                fresh(head.buckets[i]) && head.buckets[i].arr == MigratedSlot(pic.oldView, head.size, i)
    {
      var b := t.buckets[i];
      var s := t.oldNode;
      if b == null && s != null {
        var keys := FreezeSources(t, s, i);
        assert pic.view[i := keys] == pic.view;
        var _ := Publish(t, i, null, keys);
      }
    }

    /**
     * The first half of helpResize: freeze the bucket(s) of the previous
     * generation that slot i of t is built from and compute its keys, the
     * split of slot i % s.size when growing, the merge of slots i and
     * i + t.size when shrinking.
     */
    method FreezeSources(t: HNode, s: HNode, i: int) returns (keys: seq<int>)
      requires Valid() && t == head && s == t.oldNode && 0 <= i < t.size && t.buckets[i] == null
      modifies s.fflags, s.buckets[if s.size * 2 == t.size then i % s.size else i],
               s.buckets[if s.size * 2 == t.size then i % s.size else i + t.size]
      ensures Valid() && keys == MigratedSlot(pic.oldView, t.size, i) && keys == pic.view[i]
      ensures unchanged(t.buckets)
    {
      assert pic.view[i] == MigratedSlot(pic.oldView, t.size, i);
      if s.size * 2 == t.size {
        var p := FreezeBucket(s, i % s.size);
        keys := Split(p, t.size, i);
      } else {
        var p := FreezeBucket(s, i);
        var q := FreezeBucket(s, i + t.size);
        keys := Merge(p, q);
      }
    }

    /**
     * helpFinish(t, i, fset): apply the attached INSERT/REMOVE to the key
     * array, record the signed response (magnitude: the new length plus one;
     * negative when the array came back unchanged), mark the record resolved
     * and install a fresh bucket holding the new keys.
     */
    method HelpFinish(t: HNode, i: int, fset: FSet)
      requires Structure() && t == head && 0 <= i < t.size && t.buckets[i] == fset
      requires forall j :: 0 <= j < t.size && j != i && t.buckets[j] != null ==> t.buckets[j].op == null
      requires fset.op != null ==> fset.op.key >= 0 && fset.op.key % t.size == i && fset.op !in Repr
      modifies this`pic, this`Repr, t.buckets, fset.op
      ensures Valid() && Repr >= old(Repr) && fresh(Repr - old(Repr))
      ensures old(fset.op) == null ==> pic == old(pic) && t.buckets[i] == fset
      ensures old(fset.op) != null ==>
                && pic == old(pic).(view := old(pic.view)[i := old(Resolved(fset))])
                && old(fset.op).priority == MAX_VALUE
                && old(fset.op).resp == (if pic.view[i] == old(pic.view[i]) then -(|pic.view[i]| + 1) else |pic.view[i]| + 1)
                && fresh(t.buckets[i]) && t.buckets[i].arr == pic.view[i]
    {
      assert HeadSlot(t, i, fset, pic.view[i]);
      var op := fset.op;
      if op != null && op.kind != FreezeOp {
        var n := if op.kind == InsertOp then ArrayInsert(fset.arr, op.key) else ArrayRemove(fset.arr, op.key);
        ResolvedSlot(pic.view, op.kind == InsertOp, op.key, n);
        op.Finish(if n == fset.arr then -(|n| + 1) else |n| + 1);
        var _ := Publish(t, i, fset, n);
      }
    }

    /** `t.casBucket(i, expected, new FSet(keys))`: a fresh bucket holding keys, installed by casBucket. */
    method Publish(t: HNode, i: int, expected: FSet?, keys: seq<int>) returns (ok: bool)
      requires Structure() && t == head && 0 <= i < t.size
      requires forall j :: 0 <= j < t.size && j != i && t.buckets[j] != null ==> t.buckets[j].op == null
      requires WellPlaced(pic.view[i := keys]) && NoDup(keys)
      modifies this`pic, this`Repr, t.buckets
      ensures ok <==> old(t.buckets[i]) == expected
      ensures ok ==> Valid() && pic == old(pic).(view := old(pic.view)[i := keys])
      ensures ok ==> Repr >= old(Repr) && fresh(Repr - old(Repr))
      ensures ok ==> fresh(t.buckets[i]) && t.buckets[i].arr == keys
      ensures ok ==> forall j :: 0 <= j < t.size && j != i ==> t.buckets[j] == old(t.buckets[j])
      ensures !ok ==> unchanged(this, t.buckets)
    {
      var fs := new FSet(keys, t, i);
      ok := CasBucket(t, i, expected, fs);
    }

    /**
     * casBucket(i, expected, fs) on the head, and the compareAndSet of
     * helpResize: install fs at slot i when the slot still holds `expected`.
     * The slot's logical keys become those of fs.
     */
    method CasBucket(t: HNode, i: int, expected: FSet?, fs: FSet) returns (ok: bool)
      requires Structure() && t == head && 0 <= i < t.size
      requires forall j :: 0 <= j < t.size && j != i && t.buckets[j] != null ==> t.buckets[j].op == null
      requires fs !in Repr && fs.op == null && fs.table == t && fs.slot == i
      requires WellPlaced(pic.view[i := fs.arr]) && NoDup(fs.arr)
      modifies this`pic, this`Repr, t.buckets
      ensures ok <==> old(t.buckets[i]) == expected
      ensures ok ==> Valid() && pic == old(pic).(view := old(pic.view)[i := fs.arr]) && Repr == old(Repr) + {fs}
      ensures ok ==> t.buckets[i] == fs && Contents() == KeySet(pic.view)
      ensures ok ==> forall j :: 0 <= j < t.size && j != i ==> t.buckets[j] == old(t.buckets[j])
      ensures !ok ==> unchanged(this, t.buckets)
    {
      ok := t.buckets[i] == expected;
      if ok {
        t.buckets[i] := fs;
        pic := pic.(view := pic.view[i := fs.arr]);
        Repr := Repr + {fs};
      }
    }

    /**
     * set.casOp(null, op) on a head bucket with no operation attached: op is
     * attached, and the set is as helpFinish expects it, with no other head
     * bucket carrying an operation.
     */
    method CasOp(t: HNode, i: int, fset: FSet, op: WFArrayOp)
      requires Valid() && t == head && 0 <= i < t.size && t.buckets[i] == fset
      requires op.kind != FreezeOp && op !in Repr
      modifies fset
      ensures Structure() && fset.op == op
      ensures forall j :: 0 <= j < t.size && j != i && t.buckets[j] != null ==> t.buckets[j].op == null
    {
      assert HeadSlot(t, i, fset, pic.view[i]);
      fset.op := op;
    }

    /**
     * invoke(t, i, op) on a filled head slot: the freeze flag is clear and
     * no operation is attached, so the record is attached (the CAS from no
     * operation) and resolved by helpFinish.
     */
    method Invoke(t: HNode, i: int, op: WFArrayOp) returns (done: bool)
      requires Valid() && t == head && 0 <= i < t.size && t.buckets[i] != null
      requires op.kind != FreezeOp && op.priority != MAX_VALUE
      requires op.key >= 0 && op.key % t.size == i && op !in Repr
      modifies Repr, op
      ensures Valid() && Repr >= old(Repr) && fresh(Repr - old(Repr))
      ensures head == old(head) && pic.level == old(pic.level) && pic.oldView == old(pic.oldView)
      ensures done && op.priority == MAX_VALUE
      ensures pic.view == old(pic.view)[i := if op.kind == InsertOp then ArrayInsert(old(pic.view)[i], op.key)
                                      else ArrayRemove(old(pic.view)[i], op.key)]
      ensures Contents() == (if op.kind == InsertOp then old(Contents()) + {op.key} else old(Contents()) - {op.key})
      ensures var changed := if op.kind == InsertOp then op.key !in old(Contents()) else op.key in old(Contents());
        op.resp == (if changed then |pic.view[i]| + 1 else -(|pic.view[i]| + 1))
    {
      var fset := t.buckets[i];
      assert HeadSlot(t, i, fset, pic.view[i]);
      ghost var n := if op.kind == InsertOp then ArrayInsert(pic.view[i], op.key) else ArrayRemove(pic.view[i], op.key);
      ResolvedSlot(pic.view, op.kind == InsertOp, op.key, n);
      // The loop's first round: the bucket is mutable, its flag is clear and
      // no operation is attached, so the CAS attaching op succeeds.
      CasOp(t, i, fset, op);
      HelpFinish(t, i, fset);
      done := op.priority == MAX_VALUE;
    }

    /**
     * apply(type, key): one operation on the key's home slot of the current
     * generation, after helping to fill the slot if it is still empty. The
     * result is the signed response of helpFinish.
     */
    method Apply(kind: OpType, key: int) returns (result: int)
      requires Valid() && kind != FreezeOp && key >= 0
      modifies Repr
      ensures Valid() && fresh(Repr - old(Repr))
      ensures head == old(head) && pic.level == old(pic.level)
      ensures Contents() == (if kind == InsertOp then old(Contents()) + {key} else old(Contents()) - {key})
      ensures result > 0 <==> (if kind == InsertOp then key !in old(Contents()) else key in old(Contents()))
      ensures var i := key % head.size;
        pic.view == old(pic.view)[i := if kind == InsertOp then ArrayInsert(old(pic.view)[i], key) else ArrayRemove(old(pic.view)[i], key)]
      ensures (if result > 0 then result else -result) == |pic.view[key % head.size]| + 1
    {
      var t := head;
      var i := key % t.size;
      var b := t.buckets[i];
      if b == null {
        HelpResize(t, i);
      }
      // The descriptor is private to this call until invoke attaches it, so
      // allocating it after the helping step is the same as allocating it first.
      var myop := new WFArrayOp(key, kind);
      var done := Invoke(t, i, myop);
      result := myop.resp;
    }

    /** insert: add the key; a response of magnitude above 2 asks for a larger table. */
    method Insert(key: int) returns (added: bool)
      requires Valid() && key >= 0
      modifies Repr
      ensures Valid() && fresh(Repr - old(Repr))
      ensures Contents() == old(Contents()) + {key}
      ensures added <==> key !in old(Contents())
      ensures var grown := |ArrayInsert(old(pic.view)[key % old(head.size)], key)| >= 2 && old(pic.level) < 16;
        pic.level == if grown then old(pic.level) + 1 else old(pic.level)
    {
      var h := head;
      var result := Apply(InsertOp, key);
      if (if result < 0 then -result else result) > 2 {
        var _ := Resize(h, true);
      }
      added := result > 0;
    }

    /** remove: take the key out. */
    method Remove(key: int) returns (removed: bool)
      requires Valid() && key >= 0
      modifies Repr
      ensures Valid() && fresh(Repr - old(Repr))
      ensures Contents() == old(Contents()) - {key}
      ensures removed <==> key in old(Contents())
      ensures pic.level == old(pic.level)
    {
      var result := Apply(RemoveOp, key);
      removed := result > 0;
    }

    /**
     * resize(t, grow): refused at the size bounds or for a stale t. Otherwise
     * every empty slot of t is filled, t's previous generation is dropped and
     * a new head of double or half the size, with t as its previous
     * generation, is installed.
     */
    method Resize(t: HNode, grow: bool) returns (ok: bool)
      requires Valid()
      modifies Repr
      ensures Valid() && fresh(Repr - old(Repr))
      ensures Contents() == old(Contents())
      ensures ok <==> t == old(head) && !(grow && old(pic.level) == 16) && !(!grow && old(pic.level) == 0)
      ensures ok ==> fresh(head) && head.oldNode == old(head) && old(head).oldNode == null
      ensures ok ==> pic.level == (if grow then old(pic.level) + 1 else old(pic.level) - 1)
      ensures ok ==> forall j :: 0 <= j < head.size ==> head.buckets[j] == null
      ensures !ok ==> head == old(head) && pic.level == old(pic.level)
    {
      Pow2Bounds(pic.level);
      if (t.size == MAX_BUCKET_NUM && grow) || (t.size == MIN_BUCKET_NUM && !grow) {
        return false;
      }
      if t == head {
        var i := 0;
        while i < t.size
          invariant Valid() && fresh(Repr - old(Repr))
          invariant head == t && pic.level == old(pic.level) && Contents() == old(Contents())
          invariant 0 <= i <= t.size
          invariant forall j :: 0 <= j < i ==> t.buckets[j] != null
        {
          if t.buckets[i] == null {
            HelpResize(t, i);
          }
          i := i + 1;
        }
        ok := SwitchGeneration(t, grow);
      } else {
        ok := false;
      }
    }

    /**
     * The tail of resize, once every slot of t is filled: t's previous
     * generation is dropped and a new table of double or half the size,
     * whose previous generation is t, is installed by casHead. Run by one
     * thread, the second `t == head` test of the source always passes.
     */
    method SwitchGeneration(t: HNode, grow: bool) returns (ok: bool)
      requires Valid() && t == head
      requires forall j :: 0 <= j < t.size ==> t.buckets[j] != null
      requires if grow then pic.level < 16 else pic.level > 0
      modifies this, t
      ensures Valid() && fresh(Repr - old(Repr))
      ensures ok && Contents() == old(Contents())
      ensures fresh(head) && head.oldNode == t && t.oldNode == null
      ensures pic.level == (if grow then old(pic.level) + 1 else old(pic.level) - 1)
      ensures forall j :: 0 <= j < head.size ==> head.buckets[j] == null
    {
      Pow2Bounds(pic.level);
      t.oldNode := null;
      pic := pic.(oldView := []);
      var n := new HNode(t, if grow then t.size * 2 else t.size / 2);
      ghost var next: nat := if grow then pic.level + 1 else pic.level - 1;
      SwitchShape(t, n, next);
      ok := CasHead(t, n, next);
    }

    /**
     * casHead(t, n): install the fresh generation n, whose previous
     * generation is t; the logical buckets become the migration of the old
     * ones, which SwitchShape shows to meet the invariant.
     */
    method CasHead(t: HNode, n: HNode, ghost next: nat) returns (ok: bool)
      requires this in Repr && t == head && n.oldNode == t
      requires |pic.view| > 0 && n.size > 0 && (|pic.view| * 2 == n.size || |pic.view| == n.size * 2)
      requires var p, r := Picture(next, Migrated(pic.view, n.size), pic.view), Repr + {n, n.buckets, n.fflags};
        HeadShape(n, p, r - {this}) && OldShape(n, p, r - {this}) && NoPending(n, p, r - {this})
      modifies this
      ensures Valid() && Repr == old(Repr) + {n, n.buckets, n.fflags}
      ensures ok && head == n && head.oldNode == old(head)
      ensures pic == Picture(next, Migrated(old(pic.view), n.size), old(pic.view))
    {
      ghost var p, r := Picture(next, Migrated(pic.view, n.size), pic.view), Repr + {n, n.buckets, n.fflags};
      // Run by one thread, the compare-and-set of the head succeeds.
      head := n;
      pic := p;
      Repr := r;
      ok := true;
    }

    /** The generation n, installed as head over t, satisfies the invariant and keeps the keys. */
    lemma SwitchShape(t: HNode, n: HNode, next: nat)
      requires Valid() && t == head && t.oldNode == null
      requires n !in Repr && n.buckets !in Repr && n.fflags !in Repr
      requires n.oldNode == t && n.buckets.Length == n.size && n.fflags.Length == n.size
      requires forall j :: 0 <= j < n.size ==> n.buckets[j] == null && n.fflags[j] == 0
      requires next <= 16 && n.size == Pow2(next) && (n.size == t.size * 2 || n.size * 2 == t.size)
      ensures var p, r := Picture(next, Migrated(pic.view, n.size), pic.view), Repr + {n, n.buckets, n.fflags};
        HeadShape(n, p, r - {this}) && OldShape(n, p, r - {this}) && NoPending(n, p, r - {this})
      ensures KeySet(Migrated(pic.view, n.size)) == KeySet(pic.view)
    {
      MigrationGood(pic.view, n.size);
      forall j | 0 <= j < t.size ensures OldSlot(t, j, t.buckets[j], pic.view[j]) {
        assert HeadSlot(t, j, t.buckets[j], pic.view[j]);
      }
    }

    /** grow: resize the current head up. */
    method Grow() returns (ok: bool)
      requires Valid()
      modifies Repr
      ensures Valid() && fresh(Repr - old(Repr)) && Contents() == old(Contents())
      ensures ok <==> old(pic.level) < 16
      ensures pic.level == (if ok then old(pic.level) + 1 else old(pic.level))
    {
      var h := head;
      ok := Resize(h, true);
    }

    /** shrink: resize the current head down. */
    method Shrink() returns (ok: bool)
      requires Valid()
      modifies Repr
      ensures Valid() && fresh(Repr - old(Repr)) && Contents() == old(Contents())
      ensures ok <==> old(pic.level) > 0
      ensures pic.level == (if ok then old(pic.level) - 1 else old(pic.level))
    {
      var h := head;
      ok := Resize(h, false);
    }
  }
}

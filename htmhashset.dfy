/**
 * The transactional resizable hash set of chash/hash_htm.hpp
 * (hashset_htm_t), run by one thread.
 *
 * The design is that of hash.hpp (module ChashSet): generations of
 * length-prefixed buckets, frozen by the pointer's mark bit and migrated
 * lazily into the next generation. Two things differ. A slot is a counted
 * pointer (cptr_t): the bucket pointer with its mark bit, and a 32-bit
 * counter that every replacement of the slot raises by one, so that a
 * compare-and-set on the whole word cannot be fooled by a recycled
 * pointer. And buckets are allocated with room for at least
 * MIN_ALLOC_LEN keys.
 *
 * insert and remove first try a hardware transaction whose body is the
 * home slot's update; a NULL or marked bucket aborts it, and an aborted
 * or unstarted transaction falls back to the lock-free slow path. Whether
 * the hardware starts the transaction is a parameter. The invariant is
 * BucketTables.Tables, stated on the bucket references of the slots.
 */
module HtmHashSet {
  import opened Powers
  import opened Buckets
  import LengthPrefixed
  import opened BucketTables
  import MarkBits

  const MIN_BUCKET_NUM := 1
  const MAX_BUCKET_NUM := 0x1_0000
  /** The smallest number of keys a bucket has room for. */
  const MIN_ALLOC_LEN := 4

  /** A counted-pointer slot: the bucket reference (NULL, or a bucket and its mark bit) and the counter. */
  datatype Cell = Cell(ref: BucketRef, ctr: bv32)

  /** The bucket references of a run of slots. */
  function Refs(c: seq<Cell>): (r: seq<BucketRef>)
    ensures |r| == |c| && forall j :: 0 <= j < |c| ==> r[j] == c[j].ref
  {
    seq(|c|, j requires 0 <= j < |c| => c[j].ref)
  }

  /** A table generation. */
  class HNode {
    var oldNode: HNode?
    const buckets: array<Cell>
    const size: int

    /** alloc_hnode(o, s): s all-zero slots (NULL, counter 0) and o as the previous generation. */
    constructor (o: HNode?, s: nat)
      ensures oldNode == o && size == s
      ensures fresh(buckets) && buckets.Length == s
      ensures forall j :: 0 <= j < s ==> buckets[j] == Cell(Null, 0)
    {
      oldNode := o;
      size := s;
      buckets := new Cell[s](_ => Cell(Null, 0));
    }

    /**
     * The generation and its predecessor, if any, lie in footprint r; a
     * predecessor is a different generation with its own slots and no
     * predecessor of its own.
     */
    ghost predicate Linked(r: set<object>)
      reads this, oldNode
    {
      this in r && buckets in r && buckets.Length == size
      && (oldNode != null ==>
            oldNode in r && oldNode.buckets in r && oldNode != this && oldNode.oldNode == null
            && oldNode.buckets != buckets && oldNode.buckets.Length == oldNode.size > 0)
    }
  }

  class HashSet {
    var head: HNode
    ghost var pic: Picture
    ghost var Repr: set<object>

    /** The keys of the set: those of the head slots. */
    ghost function Contents(): set<int>
      reads this
    {
      KeySet(pic.view)
    }

    /** The bucket references of the previous generation, empty when there is none. */
    ghost function OldRefs(): seq<BucketRef>
      reads this, head, if head.oldNode == null then {} else {head.oldNode, head.oldNode.buckets}
    {
      if head.oldNode == null then [] else Refs(head.oldNode.buckets[..])
    }

    ghost predicate Valid()
      reads this, Repr
    {
      this in Repr && head in Repr && (head.oldNode == null || head.oldNode in Repr) && head.Linked(Repr)
      && Tables(pic, Refs(head.buckets[..]), OldRefs())
    }

    /** Valid depends only on the set's own footprint. */
    twostate lemma StillValid()
      requires old(Valid()) && unchanged(this) && unchanged(old(Repr))
      ensures Valid()
    {
    }

    /** hashset_htm_t(): one slot holding an empty bucket with counter 0, no previous generation. */
    constructor ()
      ensures Valid() && fresh(Repr)
      ensures Contents() == {} && pic.level == 0 && head.size == MIN_BUCKET_NUM
      ensures head.buckets[0].ctr == 0
    {
      var t := new HNode(null, MIN_BUCKET_NUM);
      var a := LengthPrefixed.AllocFset(0, MIN_ALLOC_LEN);
      t.buckets[0] := Cell(Ptr(a[..], false), 0);
      head := t;
      pic := Picture(0, [[]], []);
      Repr := {this, t, t.buckets};
      new;
      InitialTables(a[..]);
      assert Refs(t.buckets[..]) == [Ptr(a[..], false)];
    }

    /**
     * contains (slow path): the home slot of the head, or the previous
     * generation's home slot when the head slot is NULL.
     */
    method Contains(key: int) returns (r: bool)
      requires Valid() && key >= 0
      ensures r <==> key in Contents()
    {
      var t := head;
      MemberHome(pic.view, key);
      var w := t.buckets[key % t.size];
      assert HeadSlot(Refs(t.buckets[..])[key % t.size], pic.view[key % t.size]);
      if w.ref.Null? {
        var s := t.oldNode;
        if s == null {
          // Valid(): without a previous generation every slot is filled.
          assert false;
        } else {
          var k := key % s.size;
          w := s.buckets[k];
          assert OldSlot(OldRefs()[k], pic.oldView[k]);
          assert pic.view[key % t.size] == MigratedSlot(pic.oldView, t.size, key % t.size);
          MigratedHome(pic.oldView, t.size, key);
          r := LengthPrefixed.ArrayContains(w.ref.words, key);
        }
      } else {
        r := LengthPrefixed.ArrayContains(w.ref.words, key);
      }
    }

    /**
     * bcas(&t->buckets[i], &expected.all, nw.all) on the head: install the
     * counted pointer nw when the slot still holds the word `expected`. The
     * slot's keys become those of nw's bucket.
     */
    method CasBucket(t: HNode, i: int, expected: Cell, nw: Cell) returns (ok: bool)
      requires Valid() && t == head && 0 <= i < t.size
      requires nw.ref.Ptr? && !nw.ref.marked && LengthPrefixed.Wf(nw.ref.words)
      requires WellPlaced(pic.view[i := LengthPrefixed.Elems(nw.ref.words)]) && NoDup(LengthPrefixed.Elems(nw.ref.words))
      modifies this`pic, t.buckets
      ensures ok <==> old(t.buckets[i]) == expected
      ensures ok ==> Valid() && pic == old(pic).(view := old(pic).view[i := LengthPrefixed.Elems(nw.ref.words)])
      ensures ok ==> t.buckets[i] == nw
      ensures ok ==> forall j :: 0 <= j < t.size && j != i ==> t.buckets[j] == old(t.buckets[j])
      ensures !ok ==> unchanged(this, t.buckets)
    {
      ok := t.buckets[i] == expected;
      if ok {
        ghost var hb := Refs(t.buckets[..]);
        TablesInstall(pic, hb, OldRefs(), i, nw.ref);
        t.buckets[i] := nw;
        pic := pic.(view := pic.view[i := LengthPrefixed.Elems(nw.ref.words)]);
        assert Refs(t.buckets[..]) == hb[i := nw.ref];
      }
    }

    /**
     * The update of a filled, unmarked home slot, shared by apply's inner
     * loop and the transaction body: build the bucket with the key added
     * or taken out; answer -(n[0] + 1) when that is the same bucket, and
     * otherwise install it with the counter one larger and answer
     * n[0] + 1. In the transaction the slot is written by a plain store
     * and in apply by bcas; run by one thread the two are the same.
     */
    method Enlist(t: HNode, i: int, insert: bool, key: int) returns (result: int)
      requires Valid() && t == head && 0 <= i < t.size && t.buckets[i].ref.Ptr?
      requires key >= 0 && key % t.size == i
      modifies this`pic, t.buckets
      ensures Valid() && pic.level == old(pic.level)
      ensures Contents() == (if insert then old(Contents()) + {key} else old(Contents()) - {key})
      ensures result > 0 <==> (if insert then key !in old(Contents()) else key in old(Contents()))
      ensures (if result > 0 then result else -result) == |pic.view[i]| + 1
      ensures pic.view == old(pic.view)[i := if insert then ArrayInsert(old(pic.view)[i], key) else ArrayRemove(old(pic.view)[i], key)]
      ensures result < 0 ==> t.buckets[i] == old(t.buckets[i])
      ensures result > 0 ==> t.buckets[i].ctr == MarkBits.NextCtr(old(t.buckets[i].ctr))
      ensures forall j :: 0 <= j < t.size && j != i ==> t.buckets[j] == old(t.buckets[j])
    {
      var w := t.buckets[i];
      var b := w.ref;
      assert HeadSlot(Refs(t.buckets[..])[i], pic.view[i]);
      ghost var v := pic.view;
      assert key % |v| == i;
      ghost var keys := if insert then ArrayInsert(v[i], key) else ArrayRemove(v[i], key);
      ResolvedSlot(v, insert, key, keys);
      label before:
      var n := LengthPrefixed.Rebuild(b.words, insert, key, MIN_ALLOC_LEN);
      StillValid@before();
      assert LengthPrefixed.Elems(n) == keys;
      if n == b.words {
        assert v[i := keys] == v;
        result := -(n[0] + 1);
      } else {
        result := Publish(t, i, w, n, keys);
      }
    }

    /** The install step of Enlist: the rebuilt bucket n goes into slot i with the counter one larger, and the answer is n[0] + 1. */
    method Publish(t: HNode, i: int, w: Cell, n: seq<int>, ghost keys: seq<int>) returns (result: int)
      requires Valid() && t == head && 0 <= i < t.size && t.buckets[i] == w
      requires LengthPrefixed.Wf(n) && LengthPrefixed.Elems(n) == keys && WellPlaced(pic.view[i := keys]) && NoDup(keys)
      modifies this`pic, t.buckets
      ensures Valid() && pic == old(pic).(view := old(pic).view[i := keys])
      ensures result == |keys| + 1
      ensures t.buckets[i].ctr == MarkBits.NextCtr(old(t.buckets[i].ctr))
      ensures forall j :: 0 <= j < t.size && j != i ==> t.buckets[j] == old(t.buckets[j])
    {
      var _ := CasBucket(t, i, w, Cell(Ptr(n, false), MarkBits.NextCtr(w.ctr)));
      result := n[0] + 1;
    }

    /**
     * The transaction body of insert and remove: a NULL or marked home
     * slot aborts it (`committed` false, nothing written); otherwise the
     * slot is updated as by Enlist.
     */
    method FastPath(insert: bool, key: int) returns (result: int, committed: bool)
      requires Valid() && key >= 0
      modifies this`pic, head.buckets
      ensures Valid() && head == old(head) && pic.level == old(pic.level)
      ensures committed <==> old(head.buckets[key % head.size]).ref.Ptr?
      ensures !committed ==> unchanged(this, head.buckets)
      ensures committed ==> Contents() == (if insert then old(Contents()) + {key} else old(Contents()) - {key})
      ensures committed ==> (result > 0 <==> (if insert then key !in old(Contents()) else key in old(Contents())))
      ensures committed ==> (if result > 0 then result else -result) == |pic.view[key % head.size]| + 1
      ensures committed ==> var i := key % head.size; pic.view == old(pic.view)[i := if insert then ArrayInsert(old(pic.view)[i], key) else ArrayRemove(old(pic.view)[i], key)]
    {
      var t := head;
      var i := key % t.size;
      var w := t.buckets[i];
      assert HeadSlot(Refs(t.buckets[..])[i], pic.view[i]);
      if w.ref.Null? || w.ref.marked {
        return 0, false;
      }
      result := Enlist(t, i, insert, key);
      committed := true;
    }

    /**
     * apply(insert, key), the slow path: fill the home slot if it is still
     * NULL, then update it as by Enlist.
     */
    method Apply(insert: bool, key: int) returns (result: int)
      requires Valid() && key >= 0
      modifies Repr
      ensures Valid() && Repr == old(Repr)
      ensures head == old(head) && pic.level == old(pic.level)
      ensures Contents() == (if insert then old(Contents()) + {key} else old(Contents()) - {key})
      ensures result > 0 <==> (if insert then key !in old(Contents()) else key in old(Contents()))
      ensures var i := key % head.size; pic.view == old(pic.view)[i := if insert then ArrayInsert(old(pic.view)[i], key) else ArrayRemove(old(pic.view)[i], key)]
      ensures (if result > 0 then result else -result) == |pic.view[key % head.size]| + 1
    {
      var t := head;
      var i := key % t.size;
      var w := t.buckets[i];
      if w.ref.Null? {
        HelpResize(t, i);
      }
      // The next round of the loop finds the slot filled and unmarked.
      result := Enlist(t, i, insert, key);
    }

    /**
     * The shared front of insert and remove: the transaction when the
     * hardware starts it (`htm`) and it commits, the slow path apply
     * otherwise. Both answer the same.
     */
    method Update(insert: bool, key: int, htm: bool) returns (result: int)
      requires Valid() && key >= 0
      modifies Repr
      ensures Valid() && Repr == old(Repr)
      ensures head == old(head) && pic.level == old(pic.level)
      ensures Contents() == (if insert then old(Contents()) + {key} else old(Contents()) - {key})
      ensures result > 0 <==> (if insert then key !in old(Contents()) else key in old(Contents()))
      ensures var i := key % head.size; pic.view == old(pic.view)[i := if insert then ArrayInsert(old(pic.view)[i], key) else ArrayRemove(old(pic.view)[i], key)]
      ensures (if result > 0 then result else -result) == |pic.view[key % head.size]| + 1
    {
      var committed := false;
      if htm {
        result, committed := FastPath(insert, key);
      }
      if !committed {
        result := Apply(insert, key);
      }
    }

    /** insert: add the key; an answer of magnitude above 2 asks for a larger table. */
    method Insert(key: int, htm: bool) returns (added: bool)
      requires Valid() && key >= 0
      modifies Repr
      ensures Valid() && fresh(Repr - old(Repr))
      ensures Contents() == old(Contents()) + {key}
      ensures added <==> key !in old(Contents())
      ensures var grown := |ArrayInsert(old(pic.view)[key % old(head.size)], key)| >= 2 && old(pic.level) < 16;
        pic.level == if grown then old(pic.level) + 1 else old(pic.level)
    {
      var t := head;
      var result := Update(true, key, htm);
      GrowIfFull(t, (if result < 0 then -result else result) > 2);
      added := result > 0;
    }

    /** The end of insert: when the answer says the home bucket is full, try to move t up one level. */
    method GrowIfFull(t: HNode, full: bool)
      requires Valid()
      modifies Repr
      ensures Valid() && fresh(Repr - old(Repr)) && Contents() == old(Contents())
      ensures pic.level == if full && t == old(head) && old(pic.level) < 16 then old(pic.level) + 1 else old(pic.level)
    {
      if full {
        var _ := Resize(t, true);
      }
    }

    /** remove: take the key out. */
    method Remove(key: int, htm: bool) returns (removed: bool)
      requires Valid() && key >= 0
      modifies Repr
      ensures Valid() && Repr == old(Repr)
      ensures Contents() == old(Contents()) - {key}
      ensures removed <==> key in old(Contents())
      ensures pic.level == old(pic.level)
    {
      var result := Update(false, key, htm);
      removed := result > 0;
    }

    /** grow: resize the current head up. */
    method Grow() returns (ok: bool)
      requires Valid()
      modifies Repr
      ensures Valid() && fresh(Repr - old(Repr)) && Contents() == old(Contents())
      ensures ok <==> old(pic.level) < 16
      ensures pic.level == (if ok then old(pic.level) + 1 else old(pic.level))
    {
      var h := head;
      ok := Resize(h, true);
    }

    /** shrink: resize the current head down. */
    method Shrink() returns (ok: bool)
      requires Valid()
      modifies Repr
      ensures Valid() && fresh(Repr - old(Repr)) && Contents() == old(Contents())
      ensures ok <==> old(pic.level) > 0
      ensures pic.level == (if ok then old(pic.level) - 1 else old(pic.level))
    {
      var h := head;
      ok := Resize(h, false);
    }

    /**
     * resize(t, grow): refused at the size bounds or when t is no longer the
     * head; otherwise fill every NULL slot of t, drop t's predecessor and
     * install a generation of double or half the size.
     */
    method Resize(t: HNode, grow: bool) returns (ok: bool)
      requires Valid()
      modifies Repr
      ensures Valid() && fresh(Repr - old(Repr))
      ensures Contents() == old(Contents())
      ensures ok <==> t == old(head) && !(grow && old(pic.level) == 16) && !(!grow && old(pic.level) == 0)
      ensures ok ==> fresh(head) && head.oldNode == old(head) && old(head).oldNode == null
      ensures ok ==> pic.level == (if grow then old(pic.level) + 1 else old(pic.level) - 1)
      ensures ok ==> forall j :: 0 <= j < head.size ==> head.buckets[j] == Cell(Null, 0)
      ensures !ok ==> head == old(head) && pic.level == old(pic.level)
    {
      Pow2Bounds(pic.level);
      if (t.size == MAX_BUCKET_NUM && grow) || (t.size == MIN_BUCKET_NUM && !grow) {
        return false;
      }
      if t == head {
        FillSlots(t);
        DropOld(t);
        ok := SwitchGeneration(t, grow);
      } else {
        ok := false;
      }
    }

    /** The first loop of resize: every NULL slot of the head t is filled, so t's predecessor can go. */
    method FillSlots(t: HNode)
      requires Valid() && t == head
      modifies Repr
      ensures Valid() && Repr == old(Repr)
      ensures head == t && t.oldNode == old(t.oldNode) && pic.level == old(pic.level) && Contents() == old(Contents())
      ensures forall j :: 0 <= j < t.size ==> t.buckets[j].ref.Ptr?
    {
      var i := 0;
      while i < t.size
        invariant Valid() && Repr == old(Repr)
        invariant head == t && t.oldNode == old(t.oldNode) && pic.level == old(pic.level) && Contents() == old(Contents())
        invariant 0 <= i <= t.size
        invariant forall j :: 0 <= j < i ==> t.buckets[j].ref.Ptr?
      {
        if t.buckets[i].ref.Null? {
          HelpResize(t, i);
        }
        i := i + 1;
      }
    }

    /**
     * `if (o && bcas(&(t->old), &o, NULL))` on a head whose slots are all
     * filled: the previous generation is dropped, and with it its keys.
     */
    method DropOld(t: HNode)
      requires Valid() && t == head
      requires forall j :: 0 <= j < t.size ==> t.buckets[j].ref.Ptr?
      modifies this`pic, t`oldNode
      ensures Valid() && t.oldNode == null
      ensures pic == old(pic).(oldView := [])
    {
      var o := t.oldNode;
      TablesDropOld(pic, Refs(t.buckets[..]), OldRefs());
      if o != null {
        t.oldNode := null;
      }
      pic := pic.(oldView := []);
    }

    /**
     * The tail of resize once t's predecessor is gone: install a fresh
     * generation whose predecessor is t. Run by one thread, the second
     * `t == head` test of the source always passes.
     */
    method SwitchGeneration(t: HNode, grow: bool) returns (ok: bool)
      requires Valid() && t == head && t.oldNode == null
      requires if grow then pic.level < 16 else pic.level > 0
      modifies this
      ensures Valid() && fresh(Repr - old(Repr))
      ensures ok && Contents() == old(Contents())
      ensures fresh(head) && head.oldNode == t && t.oldNode == null
      ensures pic.level == (if grow then old(pic.level) + 1 else old(pic.level) - 1)
      ensures forall j :: 0 <= j < head.size ==> head.buckets[j] == Cell(Null, 0)
    {
      Pow2Bounds(pic.level);
      label before:
      var n := new HNode(t, if grow then t.size * 2 else t.size / 2);
      StillValid@before();
      ok := CasHead(t, n, grow);
    }

    /** bcas(&head, &t, n): install the fresh generation n, whose predecessor is t. */
    method CasHead(t: HNode, n: HNode, grow: bool) returns (ok: bool)
      requires Valid() && t == head && t.oldNode == null
      requires n !in Repr && n.buckets !in Repr
      requires n.oldNode == t && n.buckets.Length == n.size
      requires forall j :: 0 <= j < n.size ==> n.buckets[j].ref.Null?
      requires if grow then pic.level < 16 && n.size == t.size * 2 else pic.level > 0 && n.size == t.size / 2
      modifies this
      ensures Valid() && Repr == old(Repr) + {n, n.buckets}
      ensures ok && head == n && Contents() == old(Contents())
      ensures pic.level == (if grow then old(pic.level) + 1 else old(pic.level) - 1)
    {
      ghost var next: nat := if grow then pic.level + 1 else pic.level - 1;
      assert n.size == Pow2(next) by {
        Pow2Bounds(pic.level);
      }
      ghost var hb, nb := Refs(t.buckets[..]), Refs(n.buckets[..]);
      TablesSwitch(pic, next, hb, nb);
      assert n.Linked(Repr + {n, n.buckets});
      // Run by one thread, the compare-and-set of the head succeeds.
      head := n;
      pic := Picture(next, Migrated(pic.view, n.size), pic.view);
      Repr := Repr + {n, n.buckets};
      ok := true;
      assert Refs(head.buckets[..]) == nb && OldRefs() == hb;
    }

    /**
     * helpResize(t, i): a NULL slot of the head is filled from the frozen
     * bucket(s) of the previous generation, with the counter one larger.
     */
    method HelpResize(t: HNode, i: int)
      requires Valid() && t == head && 0 <= i < t.size
      modifies Repr
      ensures Valid() && Repr == old(Repr)
      ensures head == old(head) && head.oldNode == old(head.oldNode) && pic == old(pic)
      ensures head.buckets[i].ref.Ptr?
      ensures forall j :: 0 <= j < head.size && j != i ==> head.buckets[j] == old(head.buckets[j])
      ensures old(head.buckets[i]).ref.Ptr? ==> head.buckets[i] == old(head.buckets[i])
      ensures old(head.buckets[i]).ref.Null? ==>
                && !head.buckets[i].ref.marked
                && LengthPrefixed.Elems(head.buckets[i].ref.words) == MigratedSlot(pic.oldView, head.size, i)
                && head.buckets[i].ctr == MarkBits.NextCtr(old(head.buckets[i]).ctr)
    {
      var w := t.buckets[i];
      var s := t.oldNode;
      if w.ref.Null? && s != null {
        var fs := FreezeSources(t, s, i);
        assert pic.view[i := LengthPrefixed.Elems(fs)] == pic.view;
        var _ := CasBucket(t, i, w, Cell(Ptr(fs, false), MarkBits.NextCtr(w.ctr)));
      }
    }

    /**
     * The first half of helpResize: freeze the source bucket(s) of slot i
     * and build its bucket, the split of slot i % s->size when growing, the
     * merge of slots i and i + t->size when shrinking.
     */
    method FreezeSources(t: HNode, s: HNode, i: int) returns (fs: seq<int>)
      requires Valid() && t == head && s == t.oldNode && 0 <= i < t.size && t.buckets[i].ref.Null?
      modifies s.buckets
      ensures Valid() && unchanged(t.buckets)
      ensures LengthPrefixed.Wf(fs)
      ensures LengthPrefixed.Elems(fs) == MigratedSlot(pic.oldView, t.size, i) == pic.view[i]
    {
      assert HeadSlot(Refs(t.buckets[..])[i], pic.view[i]);
      assert pic.view[i] == MigratedSlot(pic.oldView, t.size, i);
      if s.size * 2 == t.size {
        var p := FreezeBucket(s, i % s.size);
        label before:
        fs := LengthPrefixed.Split(p, t.size, i, MIN_ALLOC_LEN);
        StillValid@before();
      } else {
        var p := FreezeBucket(s, i);
        var q := FreezeBucket(s, i + t.size);
        label before':
        fs := LengthPrefixed.Merge(p, q, MIN_ALLOC_LEN);
        StillValid@before'();
      }
    }

    /**
     * freezeBucket(s, j): set the mark bit of slot j of the previous
     * generation, with the counter one larger, and answer the unmarked
     * bucket pointer; a slot already marked is left as it is.
     */
    method FreezeBucket(s: HNode, j: int) returns (p: seq<int>)
      requires Valid() && s == head.oldNode && 0 <= j < s.size
      modifies s.buckets
      ensures Valid()
      ensures old(s.buckets[j]).ref == Ptr(p, old(s.buckets[j]).ref.marked) && s.buckets[j].ref == Ptr(p, true)
      ensures old(s.buckets[j]).ref.marked ==> s.buckets[j] == old(s.buckets[j])
      ensures !old(s.buckets[j]).ref.marked ==> s.buckets[j].ctr == MarkBits.NextCtr(old(s.buckets[j]).ctr)
      ensures forall k :: 0 <= k < s.size && k != j ==> s.buckets[k] == old(s.buckets[k])
      ensures LengthPrefixed.Wf(p) && LengthPrefixed.Elems(p) == pic.oldView[j]
    {
      var w := s.buckets[j];
      ghost var ob := Refs(s.buckets[..]);
      assert OldSlot(ob[j], pic.oldView[j]);
      if w.ref.marked {
        return w.ref.words;
      }
      TablesFreeze(pic, Refs(head.buckets[..]), ob, j);
      // Run by one thread, the compare-and-set that marks the slot succeeds.
      s.buckets[j] := Cell(Ptr(w.ref.words, true), MarkBits.NextCtr(w.ctr));
      p := w.ref.words;
      assert Refs(s.buckets[..]) == ob[j := Ptr(w.ref.words, true)];
    }
  }
}

/**
 * The resizable hash set of chash/hash.hpp (hashset_t), run by one thread.
 *
 * A generation (hnode_t) is an array of bucket pointers plus a pointer to
 * the previous generation. A bucket is a length-prefixed int array that is
 * never written after it has been published, so a slot holds the bucket's
 * words as a value (module LengthPrefixed fills the fresh arrays); an
 * insert or a remove installs a fresh bucket (or keeps the same one when
 * nothing changes). Freezing a bucket of the previous generation sets the
 * low bit of its pointer (REF_MARKED); a slot is modelled as the pair
 * (bucket, mark bit), which is what IS_MARKED and REF_UNMARKED read back
 * out of the word (module MarkBits proves that marking and unmarking an
 * aligned pointer is lossless).
 *
 * Sequentially every bcas succeeds and the `while (true)` loops run once.
 * The ghost picture holds the keys of each head slot (an empty slot's are
 * those migration would produce) and of each slot of the previous
 * generation; the keys of the set are those of the head slots. The
 * invariant is stated on the picture and the slot values of the two
 * generations (predicate Tables), and each step that changes a slot is a
 * lemma about those values.
 */
module ChashSet {
  import opened Powers
  import opened Buckets
  import LengthPrefixed
  import opened BucketTables

  const MIN_BUCKET_NUM := 1
  const MAX_BUCKET_NUM := 0x1_0000

  /** A table generation. */
  class HNode {
    var oldNode: HNode?
    const buckets: array<BucketRef>
    const size: int

    /** alloc_hnode(o, s): s empty slots and o as the previous generation. */
    constructor (o: HNode?, s: nat)
      ensures oldNode == o && size == s
      ensures fresh(buckets) && buckets.Length == s
      ensures forall j :: 0 <= j < s ==> buckets[j] == Null
    {
      oldNode := o;
      size := s;
      buckets := new BucketRef[s](_ => Null);
    }

    /**
     * The generation and its predecessor, if any, lie in footprint r; a
     * predecessor is a different generation with its own slots and no
     * predecessor of its own.
     */
    ghost predicate Linked(r: set<object>)
      reads this, oldNode
    {
      this in r && buckets in r && buckets.Length == size
      && (oldNode != null ==>
            oldNode in r && oldNode.buckets in r && oldNode != this && oldNode.oldNode == null
            && oldNode.buckets != buckets && oldNode.buckets.Length == oldNode.size > 0)
    }
  }

  class HashSet {
    var head: HNode
    ghost var pic: Picture
    ghost var Repr: set<object>

    /** The keys of the set: those of the head slots. */
    ghost function Contents(): set<int>
      reads this
    {
      KeySet(pic.view)
    }

    /** The slots of the previous generation, empty when there is none. */
    ghost function OldSlots(): seq<BucketRef>
      reads this, head, if head.oldNode == null then {} else {head.oldNode, head.oldNode.buckets}
    {
      if head.oldNode == null then [] else head.oldNode.buckets[..]
    }

    ghost predicate Valid()
      reads this, Repr
    {
      this in Repr && head in Repr && (head.oldNode == null || head.oldNode in Repr) && head.Linked(Repr)
      && Tables(pic, head.buckets[..], OldSlots())
    }

    /** Valid depends only on the set's own footprint. */
    twostate lemma StillValid()
      requires old(Valid()) && unchanged(this) && unchanged(old(Repr))
      ensures Valid()
    {
    }

    /** hashset_t(): one slot holding an empty bucket, no previous generation. */
    constructor ()
      ensures Valid() && fresh(Repr)
      ensures Contents() == {} && pic.level == 0 && head.size == MIN_BUCKET_NUM
    {
      var t := new HNode(null, MIN_BUCKET_NUM);
      var a := LengthPrefixed.AllocFset(0, 0);
      t.buckets[0] := Ptr(a[..], false);
      head := t;
      pic := Picture(0, [[]], []);
      Repr := {this, t, t.buckets};
      new;
      InitialTables(a[..]);
      assert t.buckets[..] == [Ptr(a[..], false)];
    }

    /**
     * contains: the home slot of the head, or the previous generation's
     * home slot when the head slot is still empty.
     */
    method Contains(key: int) returns (r: bool)
      requires Valid() && key >= 0
      ensures r <==> key in Contents()
    {
      var t := head;
      MemberHome(pic.view, key);
      var b := t.buckets[key % t.size];
      if b.Null? {
        var s := t.oldNode;
        if s == null {
          // Valid(): without a previous generation every slot is filled.
          assert false;
        } else {
          var k := key % s.size;
          b := s.buckets[k];
          assert OldSlot(OldSlots()[k], pic.oldView[k]);
          assert pic.view[key % t.size] == MigratedSlot(pic.oldView, t.size, key % t.size);
          MigratedHome(pic.oldView, t.size, key);
          r := LengthPrefixed.ArrayContains(b.words, key);
        }
      } else {
        assert HeadSlot(t.buckets[..][key % t.size], pic.view[key % t.size]);
        r := LengthPrefixed.ArrayContains(b.words, key);
      }
    }

    /**
     * bcas(&t->buckets[i], &expected, nb) on the head: install nb when the
     * slot still holds `expected`. The slot's keys become those of nb.
     */
    method CasBucket(t: HNode, i: int, expected: BucketRef, nb: BucketRef) returns (ok: bool)
      requires Valid() && t == head && 0 <= i < t.size
      requires nb.Ptr? && !nb.marked && LengthPrefixed.Wf(nb.words)
      requires WellPlaced(pic.view[i := LengthPrefixed.Elems(nb.words)]) && NoDup(LengthPrefixed.Elems(nb.words))
      modifies this`pic, t.buckets
      ensures ok <==> old(t.buckets[i]) == expected
      ensures ok ==> Valid() && pic == old(pic).(view := old(pic).view[i := LengthPrefixed.Elems(nb.words)])
      ensures ok ==> t.buckets[i] == nb
      ensures ok ==> forall j :: 0 <= j < t.size && j != i ==> t.buckets[j] == old(t.buckets[j])
      ensures !ok ==> unchanged(this, t.buckets)
    {
      ok := t.buckets[i] == expected;
      if ok {
        ghost var hb := t.buckets[..];
        TablesInstall(pic, hb, OldSlots(), i, nb);
        t.buckets[i] := nb;
        pic := pic.(view := pic.view[i := LengthPrefixed.Elems(nb.words)]);
        assert t.buckets[..] == hb[i := nb];
      }
    }

    /**
     * apply(insert, key): fill the home slot if it is still empty, then
     * install the bucket with the key added or taken out. The answer is
     * the new key count plus one, negated when the bucket came back as the
     * same array (nothing changed).
     */
    method Apply(insert: bool, key: int) returns (result: int)
      requires Valid() && key >= 0
      modifies Repr
      ensures Valid() && Repr == old(Repr)
      ensures head == old(head) && pic.level == old(pic.level)
      ensures Contents() == (if insert then old(Contents()) + {key} else old(Contents()) - {key})
      ensures result > 0 <==> (if insert then key !in old(Contents()) else key in old(Contents()))
      ensures var i := key % head.size; pic.view == old(pic.view)[i := if insert then ArrayInsert(old(pic.view)[i], key) else ArrayRemove(old(pic.view)[i], key)]
      ensures (if result > 0 then result else -result) == |pic.view[key % head.size]| + 1
    {
      var t := head;
      var i := key % t.size;
      var b := t.buckets[i];
      if b.Null? {
        HelpResize(t, i);
      }
      // The next round of the loop finds the slot filled.
      result := Enlist(t, i, insert, key);
    }

    /**
     * The inner loop of apply: build the bucket with the key added or taken
     * out; answer -(n[0] + 1) when that is the same bucket, and otherwise
     * install it and answer n[0] + 1. A head bucket is never marked, so the
     * loop's test passes, and run by one thread its bcas succeeds.
     */
    method Enlist(t: HNode, i: int, insert: bool, key: int) returns (result: int)
      requires Valid() && t == head && 0 <= i < t.size && t.buckets[i].Ptr?
      requires key >= 0 && key % t.size == i
      modifies this`pic, t.buckets
      ensures Valid() && pic.level == old(pic.level)
      ensures Contents() == (if insert then old(Contents()) + {key} else old(Contents()) - {key})
      ensures result > 0 <==> (if insert then key !in old(Contents()) else key in old(Contents()))
      ensures (if result > 0 then result else -result) == |pic.view[i]| + 1
      ensures pic.view == old(pic.view)[i := if insert then ArrayInsert(old(pic.view)[i], key) else ArrayRemove(old(pic.view)[i], key)]
    {
      var b := t.buckets[i];
      assert HeadSlot(t.buckets[..][i], pic.view[i]);
      ghost var v := pic.view;
      assert key % |v| == i;
      ghost var keys := if insert then ArrayInsert(v[i], key) else ArrayRemove(v[i], key);
      ResolvedSlot(v, insert, key, keys);
      label before:
      var n := LengthPrefixed.Rebuild(b.words, insert, key, 0);
      StillValid@before();
      assert LengthPrefixed.Elems(n) == keys;
      if n == b.words {
        assert v[i := keys] == v;
        result := -(n[0] + 1);
      } else {
        var _ := CasBucket(t, i, b, Ptr(n, false));
        result := n[0] + 1;
      }
    }

    /** insert: add the key; an answer of magnitude above 2 asks for a larger table. */
    method Insert(key: int) returns (added: bool)
      requires Valid() && key >= 0
      modifies Repr
      ensures Valid() && fresh(Repr - old(Repr))
      ensures Contents() == old(Contents()) + {key}
      ensures added <==> key !in old(Contents())
      ensures var grown := |ArrayInsert(old(pic.view)[key % old(head.size)], key)| >= 2 && old(pic.level) < 16;
        pic.level == if grown then old(pic.level) + 1 else old(pic.level)
    {
      var h := head;
      ghost var grown := |ArrayInsert(pic.view[key % head.size], key)| >= 2 && pic.level < 16;
      var result := Apply(true, key);
      assert (if result < 0 then -result else result) > 2 <==> |pic.view[key % head.size]| >= 2;
      if (if result < 0 then -result else result) > 2 {
        var _ := Resize(h, true);
      }
      assert pic.level == if grown then old(pic.level) + 1 else old(pic.level);
      added := result > 0;
    }

    /** remove: take the key out. */
    method Remove(key: int) returns (removed: bool)
      requires Valid() && key >= 0
      modifies Repr
      ensures Valid() && Repr == old(Repr)
      ensures Contents() == old(Contents()) - {key}
      ensures removed <==> key in old(Contents())
      ensures pic.level == old(pic.level)
    {
      var result := Apply(false, key);
      removed := result > 0;
    }

    /** grow: resize the current head up. */
    method Grow() returns (ok: bool)
      requires Valid()
      modifies Repr
      ensures Valid() && fresh(Repr - old(Repr)) && Contents() == old(Contents())
      ensures ok <==> old(pic.level) < 16
      ensures pic.level == (if ok then old(pic.level) + 1 else old(pic.level))
    {
      var h := head;
      ok := Resize(h, true);
    }

    /** shrink: resize the current head down. */
    method Shrink() returns (ok: bool)
      requires Valid()
      modifies Repr
      ensures Valid() && fresh(Repr - old(Repr)) && Contents() == old(Contents())
      ensures ok <==> old(pic.level) > 0
      ensures pic.level == (if ok then old(pic.level) - 1 else old(pic.level))
    {
      var h := head;
      ok := Resize(h, false);
    }

    /**
     * resize(t, grow): refused at the size bounds or when t is no longer the
     * head; otherwise fill every empty slot of t, drop t's predecessor and
     * install a generation of double or half the size.
     */
    method Resize(t: HNode, grow: bool) returns (ok: bool)
      requires Valid()
      modifies Repr
      ensures Valid() && fresh(Repr - old(Repr))
      ensures Contents() == old(Contents())
      ensures ok <==> t == old(head) && !(grow && old(pic.level) == 16) && !(!grow && old(pic.level) == 0)
      ensures ok ==> fresh(head) && head.oldNode == old(head) && old(head).oldNode == null
      ensures ok ==> pic.level == (if grow then old(pic.level) + 1 else old(pic.level) - 1)
      ensures ok ==> forall j :: 0 <= j < head.size ==> head.buckets[j].Null?
      ensures !ok ==> head == old(head) && pic.level == old(pic.level)
    {
      Pow2Bounds(pic.level);
      if (t.size == MAX_BUCKET_NUM && grow) || (t.size == MIN_BUCKET_NUM && !grow) {
        return false;
      }
      if t == head {
        FillSlots(t);
        DropOld(t);
        ok := SwitchGeneration(t, grow);
      } else {
        ok := false;
      }
    }

    /** The first loop of resize: every empty slot of the head t is filled, so t's predecessor can go. */
    method FillSlots(t: HNode)
      requires Valid() && t == head
      modifies Repr
      ensures Valid() && Repr == old(Repr)
      ensures head == t && t.oldNode == old(t.oldNode) && pic.level == old(pic.level) && Contents() == old(Contents())
      ensures forall j :: 0 <= j < t.size ==> t.buckets[j].Ptr?
    {
      var i := 0;
      while i < t.size
        invariant Valid() && Repr == old(Repr)
        invariant head == t && t.oldNode == old(t.oldNode) && pic.level == old(pic.level) && Contents() == old(Contents())
        invariant 0 <= i <= t.size
        invariant forall j :: 0 <= j < i ==> t.buckets[j].Ptr?
      {
        if t.buckets[i].Null? {
          HelpResize(t, i);
        }
        i := i + 1;
      }
    }

    /**
     * bcas(&t->old, &o, NULL) on a head whose slots are all filled: the
     * previous generation is dropped, and with it its keys.
     */
    method DropOld(t: HNode)
      requires Valid() && t == head
      requires forall j :: 0 <= j < t.size ==> t.buckets[j].Ptr?
      modifies this`pic, t`oldNode
      ensures Valid() && t.oldNode == null
      ensures pic == old(pic).(oldView := [])
    {
      var o := t.oldNode;
      TablesDropOld(pic, t.buckets[..], OldSlots());
      if o != null {
        t.oldNode := null;
      }
      pic := pic.(oldView := []);
    }

    /**
     * The tail of resize once t's predecessor is gone: install a fresh
     * generation whose predecessor is t. Run by one thread, the second
     * `t == head` test of the source always passes.
     */
    method SwitchGeneration(t: HNode, grow: bool) returns (ok: bool)
      requires Valid() && t == head && t.oldNode == null
      requires if grow then pic.level < 16 else pic.level > 0
      modifies this
      ensures Valid() && fresh(Repr - old(Repr))
      ensures ok && Contents() == old(Contents())
      ensures fresh(head) && head.oldNode == t && t.oldNode == null
      ensures pic.level == (if grow then old(pic.level) + 1 else old(pic.level) - 1)
      ensures forall j :: 0 <= j < head.size ==> head.buckets[j].Null?
    {
      Pow2Bounds(pic.level);
      var n := new HNode(t, if grow then t.size * 2 else t.size / 2);
      ok := CasHead(t, n, grow);
    }

    /** bcas(&head, &t, n): install the fresh generation n, whose predecessor is t. */
    method CasHead(t: HNode, n: HNode, grow: bool) returns (ok: bool)
      requires Valid() && t == head && t.oldNode == null
      requires n !in Repr && n.buckets !in Repr
      requires n.oldNode == t && n.buckets.Length == n.size
      requires forall j :: 0 <= j < n.size ==> n.buckets[j].Null?
      requires if grow then pic.level < 16 && n.size == t.size * 2 else pic.level > 0 && n.size == t.size / 2
      modifies this
      ensures Valid() && Repr == old(Repr) + {n, n.buckets}
      ensures ok && head == n && Contents() == old(Contents())
      ensures pic.level == (if grow then old(pic.level) + 1 else old(pic.level) - 1)
    {
      ghost var next: nat := if grow then pic.level + 1 else pic.level - 1;
      assert n.size == Pow2(next) by {
        Pow2Bounds(pic.level);
      }
      ghost var hb, nb := t.buckets[..], n.buckets[..];
      TablesSwitch(pic, next, hb, nb);
      assert n.Linked(Repr + {n, n.buckets});
      // Run by one thread, the compare-and-set of the head succeeds.
      head := n;
      pic := Picture(next, Migrated(pic.view, n.size), pic.view);
      Repr := Repr + {n, n.buckets};
      ok := true;
      assert head.buckets[..] == nb && OldSlots() == hb;
    }

    /**
     * helpResize(t, i): an empty slot of the head is filled from the frozen
     * bucket(s) of the previous generation.
     */
    method HelpResize(t: HNode, i: int)
      requires Valid() && t == head && 0 <= i < t.size
      modifies Repr
      ensures Valid() && Repr == old(Repr)
      ensures head == old(head) && head.oldNode == old(head.oldNode) && pic == old(pic)
      ensures head.buckets[i].Ptr?
      ensures forall j :: 0 <= j < head.size && j != i ==> head.buckets[j] == old(head.buckets[j])
      ensures old(head.buckets[i]).Ptr? ==> head.buckets[i] == old(head.buckets[i])
      ensures old(head.buckets[i]).Null? ==>
                LengthPrefixed.Elems(head.buckets[i].words) == MigratedSlot(pic.oldView, head.size, i)
    {
      var b := t.buckets[i];
      var s := t.oldNode;
      if b.Null? && s != null {
        var fs := FreezeSources(t, s, i);
        assert pic.view[i := LengthPrefixed.Elems(fs)] == pic.view;
        var _ := CasBucket(t, i, b, Ptr(fs, false));
      }
    }

    /**
     * The first half of helpResize: freeze the source bucket(s) of slot i
     * and build its bucket, the split of slot i % s->size when growing, the
     * merge of slots i and i + t->size when shrinking.
     */
    method FreezeSources(t: HNode, s: HNode, i: int) returns (fs: seq<int>)
      requires Valid() && t == head && s == t.oldNode && 0 <= i < t.size && t.buckets[i].Null?
      modifies s.buckets
      ensures Valid() && unchanged(t.buckets)
      ensures LengthPrefixed.Wf(fs)
      ensures LengthPrefixed.Elems(fs) == MigratedSlot(pic.oldView, t.size, i) == pic.view[i]
    {
      assert pic.view[i] == MigratedSlot(pic.oldView, t.size, i);
      if s.size * 2 == t.size {
        var p := FreezeBucket(s, i % s.size);
        label before:
        fs := LengthPrefixed.Split(p, t.size, i, 0);
        StillValid@before();
      } else {
        var p := FreezeBucket(s, i);
        var q := FreezeBucket(s, i + t.size);
        label before':
        fs := LengthPrefixed.Merge(p, q, 0);
        StillValid@before'();
      }
    }

    /**
     * freezeBucket(s, j): set the mark bit of slot j of the previous
     * generation (left as it is when already set) and answer the unmarked
     * bucket pointer.
     */
    method FreezeBucket(s: HNode, j: int) returns (p: seq<int>)
      requires Valid() && s == head.oldNode && 0 <= j < s.size
      modifies s.buckets
      ensures Valid()
      ensures old(s.buckets[j]) == Ptr(p, old(s.buckets[j]).marked) && s.buckets[j] == Ptr(p, true)
      ensures forall k :: 0 <= k < s.size && k != j ==> s.buckets[k] == old(s.buckets[k])
      ensures LengthPrefixed.Wf(p) && LengthPrefixed.Elems(p) == pic.oldView[j]
    {
      var h := s.buckets[j];
      ghost var ob := s.buckets[..];
      assert OldSlot(ob[j], pic.oldView[j]);
      if h.marked {
        return h.words;
      }
      TablesFreeze(pic, head.buckets[..], ob, j);
      // Run by one thread, the compare-and-set that marks the slot succeeds.
      s.buckets[j] := Ptr(h.words, true);
      p := h.words;
      assert s.buckets[..] == ob[j := Ptr(h.words, true)];
    }
  }
}

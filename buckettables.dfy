/**
 * The slot values of the C++ hash sets' table generations and the
 * invariant that ties them to the ghost picture of the table. A slot of
 * hash.hpp holds a bucket pointer and a slot of hash_htm.hpp a counted
 * pointer; both carry a bucket reference, NULL or a published bucket with
 * the pointer's mark bit, and the invariant is stated on those references.
 * Each step that changes a slot or a generation is a lemma about values.
 */
module BucketTables {
  import opened Powers
  import opened Buckets
  import LengthPrefixed

  /** A bucket pointer: NULL, or a published bucket and its mark bit. */
  datatype BucketRef = Null | Ptr(words: seq<int>, marked: bool)

  /** A head slot: empty, or an unmarked well-formed bucket with the given keys. */
  predicate HeadSlot(b: BucketRef, keys: seq<int>)
  {
    b.Ptr? ==> !b.marked && LengthPrefixed.Wf(b.words) && LengthPrefixed.Elems(b.words) == keys
  }

  /** A slot of the previous generation: a well-formed bucket with the given keys, frozen or not yet. */
  predicate OldSlot(b: BucketRef, keys: seq<int>)
  {
    b.Ptr? && LengthPrefixed.Wf(b.words) && LengthPrefixed.Elems(b.words) == keys
  }

  /**
   * The invariant of the two generations, on their slot values: `hb` the
   * head's slots, `ob` the previous generation's (empty when there is none;
   * a generation has at least one slot). Every head slot holds its keys of
   * `view`, which is a good generation; without a previous generation
   * every head slot is filled; with one, the previous generation is good,
   * half or double the size, its slots hold `oldView`, and an empty head
   * slot's keys are what migrating `oldView` produces.
   */
  ghost predicate Tables(p: Picture, hb: seq<BucketRef>, ob: seq<BucketRef>)
  {
    p.level <= 16 && |hb| == Pow2(p.level)
    && GoodGeneration(p.view, |hb|)
    && (forall j :: 0 <= j < |hb| ==> HeadSlot(hb[j], p.view[j]))
    && (ob == [] ==> forall j :: 0 <= j < |hb| ==> hb[j].Ptr?)
    && (ob != [] ==>
          (|ob| * 2 == |hb| || |ob| == |hb| * 2)
          && GoodGeneration(p.oldView, |ob|)
          && (forall j :: 0 <= j < |ob| ==> OldSlot(ob[j], p.oldView[j]))
          && (forall j {:trigger MigratedSlot(p.oldView, |hb|, j)} ::
                0 <= j < |hb| && hb[j].Null? ==> p.view[j] == MigratedSlot(p.oldView, |hb|, j)))
  }

  /** The initial table: one slot holding an empty bucket. */
  lemma InitialTables(w: seq<int>)
    requires LengthPrefixed.Wf(w) && w[0] == 0
    ensures Tables(Picture(0, [[]], []), [Ptr(w, false)], []) && KeySet([[]]) == {}
  {
    assert LengthPrefixed.Elems(w) == [];
    assert AllKeys([[]]) == multiset{};
  }

  /** Installing a bucket in head slot i: the slot's keys become the bucket's. */
  lemma TablesInstall(p: Picture, hb: seq<BucketRef>, ob: seq<BucketRef>, i: int, nb: BucketRef)
    requires Tables(p, hb, ob) && 0 <= i < |hb|
    requires nb.Ptr? && !nb.marked && LengthPrefixed.Wf(nb.words)
    requires WellPlaced(p.view[i := LengthPrefixed.Elems(nb.words)]) && NoDup(LengthPrefixed.Elems(nb.words))
    ensures Tables(p.(view := p.view[i := LengthPrefixed.Elems(nb.words)]), hb[i := nb], ob)
  {
    var v := p.view[i := LengthPrefixed.Elems(nb.words)];
    var h := hb[i := nb];
    assert forall j :: 0 <= j < |h| ==> HeadSlot(h[j], v[j]);
    if ob != [] {
      forall j | 0 <= j < |h| && h[j].Null? ensures v[j] == MigratedSlot(p.oldView, |h|, j) {
        assert j != i && hb[j].Null?;
      }
    }
  }

  /** Freezing slot j of the previous generation keeps its keys. */
  lemma TablesFreeze(p: Picture, hb: seq<BucketRef>, ob: seq<BucketRef>, j: int)
    requires Tables(p, hb, ob) && 0 <= j < |ob|
    ensures Tables(p, hb, ob[j := Ptr(ob[j].words, true)])
  {
    var o := ob[j := Ptr(ob[j].words, true)];
    assert forall k :: 0 <= k < |o| ==> OldSlot(o[k], p.oldView[k]) by {
      assert OldSlot(ob[j], p.oldView[j]);
    }
  }

  /** Dropping the previous generation once every head slot is filled. */
  lemma TablesDropOld(p: Picture, hb: seq<BucketRef>, ob: seq<BucketRef>)
    requires Tables(p, hb, ob)
    requires forall j :: 0 <= j < |hb| ==> hb[j].Ptr?
    ensures Tables(p.(oldView := []), hb, [])
  {
  }

  /**
   * Installing a generation of empty slots, double or half the size, whose
   * predecessor is the current head: the new view is the migration of the
   * old one and the keys stay.
   */
  lemma TablesSwitch(p: Picture, next: nat, hb: seq<BucketRef>, nb: seq<BucketRef>)
    requires Tables(p, hb, [])
    requires next <= 16 && (next == p.level + 1 || next + 1 == p.level) && |nb| == Pow2(next)
    requires forall j :: 0 <= j < |nb| ==> nb[j].Null?
    ensures |hb| * 2 == |nb| || |hb| == |nb| * 2
    ensures Tables(Picture(next, Migrated(p.view, |nb|), p.view), nb, hb)
    ensures KeySet(Migrated(p.view, |nb|)) == KeySet(p.view)
  {
    Pow2Bounds(p.level);
    Pow2Bounds(next);
    MigrationGood(p.view, |nb|);
    forall j | 0 <= j < |hb| ensures OldSlot(hb[j], p.view[j]) {
      assert HeadSlot(hb[j], p.view[j]);
    }
  }

}

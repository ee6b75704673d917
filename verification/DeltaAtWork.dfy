/** A value stored as a delta, and left as one by a compaction whose limits it is within. */
module DeltaAtWork {
  import opened Wrappers
  import opened Codec
  import opened Patch
  import opened ValueGraph
  import opened Compaction
  import opened ValueStore

  /** A hundred bytes, and the same with the last one changed. */
  const OLD: Bytes := seq(100, _ => 0)
  const NEW: Bytes := seq(99, _ => 0) + [1]

  /** Deltas up to a chain of eight, no snapshots, no skip patches, and any patch no longer than the value. */
  function Policy(enabled: bool): DeltaPolicy {
    DeltaPolicy(enabled, 0, 8, n => if n < U64 then n else 0, 0, 0)
  }

  lemma OneByteDiffers()
    ensures |OLD| == |NEW| == 100 && OLD != NEW && 100 < U64
    ensures CommonPrefixLen(OLD, NEW) == 99 && CommonSuffixLen(OLD, NEW, 99) == 0
  {
    assert OLD[99] == 0 && NEW[99] == 1;
    var n := CommonPrefixLen(OLD, NEW);
    assert forall k :: 0 <= k < 99 ==> OLD[k] == NEW[k];
  }

  lemma PatchFits()
    ensures |BuildPatch(OLD, NEW)| <= 100
  {
    hide BuildPatch;
    OneByteDiffers();
    PatchIsShort(OLD, NEW, 99, 0);
  }

  function OldStored(h: Hash): Db {
    map[h(OLD) := Whole(Cell, OLD)]
  }

  lemma OldReads(h: Hash)
    ensures Healthy(h, OldStored(h)) && Meaning(h, OldStored(h)) == map[h(OLD) := OLD]
  {
    hide Mat;
    var none: Db := map[];
    EmptyIsHealthy(h);
    OneByteDiffers();
    StoreWholeKeeps(h, none, Cell, h(OLD), OLD);
    assert none[h(OLD) := Whole(Cell, OLD)] == OldStored(h);
  }

  lemma Worth(h: Hash, enabled: bool)
    requires Acyclic(OldStored(h)) && Meaning(h, OldStored(h)) == map[h(OLD) := OLD]
    ensures WorthADelta(h, OldStored(h), Policy(enabled), Cell, NEW, Some(h(OLD))) == enabled
  {
    hide Mat, BuildPatch, Meaning;
    OneByteDiffers();
    PatchFits();
  }

  function Expected(h: Hash, enabled: bool): ValueEntry {
    if enabled then ValueEntry(Delta, BuildPatch(OLD, NEW), Some(DeltaEntry(h(OLD), 100, 1, []))) else Whole(Cell, NEW)
  }

  lemma StoredIs(h: Hash, enabled: bool, e: ValueEntry)
    requires Acyclic(OldStored(h)) && Meaning(h, OldStored(h)) == map[h(OLD) := OLD]
    requires StoredAs(h, OldStored(h), Policy(enabled), Cell, NEW, Some(h(OLD)), e)
    ensures e == Expected(h, enabled)
  {
    hide Mat, BuildPatch, Meaning, WorthADelta, Acyclic, Sound, Doubling;
    Worth(h, enabled);
    OneByteDiffers();
  }

  lemma LeftAlone(h: Hash, enabled: bool, before: Db, after: Db)
    requires Acyclic(before) && before.Keys == after.Keys && before.Keys == {h(OLD), h(NEW)}
    requires before[h(OLD)] == Whole(Cell, OLD) && before[h(NEW)] == Expected(h, enabled)
    requires forall id :: id in before ==> CompactedAs(h, before, Policy(enabled), id, after[id])
    ensures after == before && |ChangedKinds(before, after)| == 0
  {
    hide Mat, BuildPatch, Meaning, Acyclic;
    forall id | id in before
      ensures after[id] == before[id]
    {
      assert CompactedAs(h, before, Policy(enabled), id, after[id]);
    }
    assert ChangedKinds(before, after) == {};
  }

  lemma NewIsOther(h: Hash, e: ValueEntry)
    requires h(OLD) != h(NEW)
    ensures h(NEW) !in OldStored(h)
    ensures var db := OldStored(h)[h(NEW) := e];
      db.Keys == {h(OLD), h(NEW)} && db[h(OLD)] == Whole(Cell, OLD) && db[h(NEW)] == e
  {
  }

  lemma FirstPut(h: Hash)
    ensures var none: Db := map[]; h(OLD) !in none && none[h(OLD) := Whole(Cell, OLD)] == OldStored(h)
    ensures |OLD| < U64 && |NEW| < U64
  {
  }

  /** With deltas on the changed value is stored as a delta of depth 1, which a compaction leaves alone; with deltas off it
      is stored whole. */
  method PutChanged(h: Hash, config: Config, enabled: bool) returns (e: Option<ValueEntry>, rewritten: nat)
    requires config.policy == Policy(enabled) && h(OLD) != h(NEW)
    ensures e == Some(Expected(h, enabled)) && rewritten == 0
  {
    hide *;
    var s := new ValueStore(h, config);
    s.ValidIs();
    FirstPut(h);
    var first := s.Put(Cell, OLD);
    s.ValidIs();
    OldReads(h);
    NewIsOther(h, Expected(h, enabled));
    var second := s.PutWithDelta(Cell, NEW, Some(h(OLD)));
    StoredIs(h, enabled, s.Db()[h(NEW)]);
    s.ValidIs();
    ghost var before := s.Db();
    rewritten := s.CompactDeltas();
    s.ValidIs();
    LeftAlone(h, enabled, before, s.Db());
    e := s.EntryById(h(NEW));
  }
}

/** Deltas that arrive before their base: they are refused and wait, and read as soon as the base is there. */
module LateBase {
  import opened Wrappers
  import opened Codec
  import opened Patch
  import opened ValueGraph
  import opened Compaction
  import opened Import
  import opened PartialStore
  import opened ValueStore

  const V0: Bytes := [1]
  const V1: Bytes := [2]
  const V2: Bytes := [3]

  /** `target` as a patch against `base`, as a transfer decodes it. */
  function DeltaOf(h: Hash, base: Bytes, target: Bytes): ValueEntry {
    ValueEntry(Delta, BuildPatch(base, target), Some(DeltaEntry(h(base), |target|, 0, [])))
  }

  function Batch(h: Hash): Incoming {
    [(h(V1), DeltaOf(h, V0, V1)), (h(V2), DeltaOf(h, V1, V2))]
  }

  function Waiters(h: Hash): Db {
    map[h(V1) := DeltaOf(h, V0, V1), h(V2) := DeltaOf(h, V1, V2)]
  }

  function WithBase(h: Hash): Db {
    Waiters(h)[h(V0) := Whole(Cell, V0)]
  }

  predicate Distinct(h: Hash) {
    h(V0) != h(V1) && h(V0) != h(V2) && h(V1) != h(V2)
  }

  lemma BatchMerged(h: Hash)
    requires Distinct(h)
    ensures Merge(map[], Batch(h)) == Waiters(h) && Arrivals(map[], Batch(h)) == Waiters(h)
  {
    hide DeltaOf;
    var es, rest := Batch(h), Batch(h)[1..];
    var none: Db := map[];
    var one := none[h(V1) := DeltaOf(h, V0, V1)];
    var two := one[h(V2) := DeltaOf(h, V1, V2)];
    assert rest == [(h(V2), DeltaOf(h, V1, V2))] && rest[1..] == [];
    assert Merge(two, []) == two;
    assert Merge(one, rest) == Merge(two, rest[1..]);
    assert Merge(none, es) == Merge(one, rest);
  }

  lemma BatchIsPlain(h: Hash)
    ensures BoundedEntries(Batch(h)) && NoSkips(Waiters(h))
  {
  }

  lemma NoCircle(h: Hash)
    requires Distinct(h)
    ensures Acyclic(Waiters(h)) && Acyclic(WithBase(h))
  {
    hide BuildPatch;
    var rank := map[h(V0) := 0, h(V1) := 1, h(V2) := 2];
    assert Ranked(Waiters(h), rank) && Ranked(WithBase(h), rank);
  }

  /** Nothing in the batch has a chain, and nothing in it runs in a circle. */
  lemma NothingReads(h: Hash)
    requires Distinct(h)
    ensures Acyclic(Waiters(h)) && Acyclic(WithBase(h))
    ensures !HasChain(Waiters(h), h(V1)) && !HasChain(Waiters(h), h(V2)) && !Acceptable(h, Waiters(h))
    ensures Waiters(h) != map[]
  {
    hide BuildPatch, AllRebuild, Acyclic;
    NoCircle(h);
    ChainStep(Waiters(h), h(V0));
    ChainStep(Waiters(h), h(V1));
    ChainStep(Waiters(h), h(V2));
  }

  lemma NothingDone(h: Hash, ids: seq<ValueId>)
    requires Distinct(h) && FirstIds(ids, |ids|) <= Waiters(h).Keys
    ensures Loosened(Waiters(h), ids) == Waiters(h)
  {
    hide BuildPatch, HasChain;
    NothingReads(h);
    forall i | 0 <= i < |ids|
      ensures !HasChain(Waiters(h), ids[i])
    {
      assert ids[i] in FirstIds(ids, |ids|);
    }
    assert DepthsDone(Waiters(h), ids) == {};
    NormalizeNone(Waiters(h));
  }

  /** With the base in place both deltas have their values. */
  lemma BothRead(h: Hash)
    requires Distinct(h) && Acyclic(WithBase(h))
    ensures Meaning(h, WithBase(h)) == map[h(V0) := V0, h(V1) := V1, h(V2) := V2]
  {
    hide ApplyPatch, BuildPatch, Mat;
    var db, m := WithBase(h), map[h(V0) := V0, h(V1) := V1, h(V2) := V2];
    PatchRoundTrip(V0, V1);
    PatchRoundTrip(V1, V2);
    MeaningIs(h, db, m);
  }

  /** The recorded depths say nothing, so compaction leaves the chain of two. */
  lemma ChainLeft(h: Hash, p: DeltaPolicy)
    requires Distinct(h) && ValidDb(h, WithBase(h)) && p.maxChain == 1 && p.snapshotInterval == 0
    ensures ChainLen(Compacted(h, WithBase(h), p), h(V2), 2)
  {
    hide ApplyPatch, BuildPatch, Mat, Sound, Compacted;
    var db := WithBase(h);
    assert LinksLeft(h, db, p, h(V0), 0);
    assert LinksLeft(h, db, p, h(V1), 1);
    assert LinksLeft(h, db, p, h(V2), 2);
    CompactedChainIff(h, db, p, h(V2), 2);
  }

  /** Until then they have none, for want of the base. */
  lemma NeitherReads(h: Hash)
    requires Distinct(h) && Acyclic(Waiters(h))
    ensures Meaning(h, Waiters(h)) == map[] && Fault(h, Waiters(h), map[], h(V2)) == NotFound
  {
    hide ApplyPatch, BuildPatch, Mat;
    var db: Db, m: Model := Waiters(h), map[];
    MeaningIs(h, db, m);
    assert Fault(h, db, m, h(V0)) == NotFound;
    assert Fault(h, db, m, h(V1)) == NotFound;
  }

  lemma NothingBefore(h: Hash)
    requires Distinct(h)
    ensures Acyclic(map[]) && IsPart(map[], map[]) && ValidDb(h, map[]) && Complete(h, map[])
    ensures Pending(h, map[], Batch(h)) == Arrivals(map[], Batch(h))
  {
    hide Mat;
    EmptyIsHealthy(h);
    NothingPending(h, map[], Batch(h));
  }

  lemma Shorts()
    ensures |V0| < U64
  {
  }

  /** Two deltas arrive, each the base of the next, and their base afterwards: the import is refused, yet once the base is
      put both read back, though the import is never repeated. Their depths were not worked out, and compaction leaves
      them a chain longer than the limit. */
  method LateBase(h: Hash, config: Config)
    returns (refused: bool, early: Outcome<Bytes>, first: Outcome<Bytes>, second: Outcome<Bytes>, depth: Option<nat>)
    requires Distinct(h) && config.policy.maxChain == 1 && config.policy.snapshotInterval == 0
    ensures refused && early == Err(NotFound) && first == Ok(V1) && second == Ok(V2) && depth == Some(2)
  {
    hide *;
    var s := new ValueStore(h, config);
    s.ValidIs();
    NothingBefore(h);
    refused := ImportBatch(s);
    s.ValidIs();
    NeitherReads(h);
    ReadsWhole(s, h(V2));
    early := s.Materialize(h(V2), Waiters(h));
    Shorts();
    var id := s.Put(Cell, V0);
    s.ValidIs();
    BaseAdded(h);
    first, second, depth := ReadAndCompact(s);
  }

  method ReadAndCompact(s: ValueStore) returns (first: Outcome<Bytes>, second: Outcome<Bytes>, depth: Option<nat>)
    requires Distinct(s.h) && s.Valid() && s.Shape() && s.Db() == WithBase(s.h)
    requires s.policy.maxChain == 1 && s.policy.snapshotInterval == 0
    modifies s, s.bloom
    ensures first == Ok(V1) && second == Ok(V2) && depth == Some(2)
  {
    hide *;
    s.ValidIs();
    BothRead(s.h);
    ThreeValues(s.h);
    ReadsWhole(s, s.h(V1));
    ReadsWhole(s, s.h(V2));
    first := s.Materialize(s.h(V1), WithBase(s.h));
    second := s.Materialize(s.h(V2), WithBase(s.h));
    ChainLeft(s.h, s.policy);
    var rewritten := s.CompactDeltas();
    s.ValidIs();
    ReadsWhole(s, s.h(V2));
    LinksIsChainLen(s.Db(), s.h(V2), 2);
    depth := s.DeltaChainDepth(s.h(V2), s.Db());
  }

  method ImportBatch(s: ValueStore) returns (refused: bool)
    requires Distinct(s.h) && s.Valid() && s.Shape() && s.Db() == map[]
    modifies s, s.bloom
    ensures refused && s.Valid() && s.Shape() && s.Db() == Waiters(s.h) && s.policy == old(s.policy)
  {
    hide *;
    s.ValidIs();
    NothingBefore(s.h);
    BatchMerged(s.h);
    BatchIsPlain(s.h);
    NothingReads(s.h);
    var outcome := s.ImportTransferEntries(Batch(s.h), map[]);
    s.ListedIds();
    NothingDone(s.h, s.entryIds);
    refused := outcome.Err?;
  }

  lemma ReadsWhole(s: ValueStore, id: ValueId)
    requires s.Shape()
    ensures s.Reaches(s.Db(), id)
  {
    WholeIsPart(s.Db());
  }

  lemma BaseAdded(h: Hash)
    requires Distinct(h)
    ensures h(V0) !in Waiters(h) && Waiters(h)[h(V0) := Whole(Cell, V0)] == WithBase(h) && Acyclic(WithBase(h))
  {
    NothingReads(h);
  }

  lemma ThreeValues(h: Hash)
    requires Distinct(h)
    ensures var m := map[h(V0) := V0, h(V1) := V1, h(V2) := V2];
      h(V1) in m && m[h(V1)] == V1 && h(V2) in m && m[h(V2)] == V2
  {
  }
}

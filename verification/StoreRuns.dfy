/** Whole runs of a value store: whatever is put, compacted, imported and reloaded, every id keeps its first value. */
module StoreRuns {
  import opened Wrappers
  import opened Codec
  import opened ValueGraph
  import opened Patch
  import opened Compaction
  import opened Import
  import opened PartialStore
  import opened ImportMeaning
  import opened ValueStore
  import opened ValueSegment
  import StoreReload

  datatype Op =
    | Put(kind: ValueKind, bytes: Bytes)
    | PutWithId(kind: ValueKind, id: ValueId, bytes: Bytes)
    | PutWithDelta(kind: ValueKind, bytes: Bytes, base: Option<ValueId>)
    | SetPolicy(policy: DeltaPolicy)
    | Compact
    | Refresh
    | ImportEntries(es: Incoming)
    | Reload(created: u64)

  predicate Stores(op: Op) {
    op.Put? || op.PutWithId? || op.PutWithDelta?
  }

  function IdOf(h: Hash, op: Op): ValueId
    requires Stores(op)
  {
    if op.PutWithId? then op.id else h(op.bytes)
  }

  /** No value is longer, or said to be longer, than a machine word can say. */
  predicate BoundedOp(op: Op) {
    (Stores(op) ==> |op.bytes| < U64) && (op.ImportEntries? ==> EntriesFit(op.es))
  }

  predicate BoundedOps(ops: seq<Op>) {
    forall i :: 0 <= i < |ops| ==> BoundedOp(ops[i])
  }

  lemma FittingIsBounded(es: Incoming)
    requires EntriesFit(es)
    ensures BoundedEntries(es)
  {
  }

  /******* What runs should leave behind *******/

  /** A run is told by the ideal store: every value whole, and every delta without a value as it came. */
  ghost predicate IsIdeal(h: Hash, s: Db) {
    ValidDb(h, s) && Ideal(h, s) == s
  }

  predicate NothingNew(s: Db, es: Incoming) {
    forall i :: 0 <= i < |es| ==> es[i].0 in s
  }

  /** An import is refused when it brings something new and the entries together are not acceptable. */
  ghost predicate Refused(h: Hash, s: Db, op: Op) {
    op.ImportEntries? && !NothingNew(s, op.es) && !Acceptable(h, Merge(s, op.es))
  }

  /** An import breaks the store when base links run in a circle, or when it is refused with skip patches nobody checked. */
  ghost predicate Breaks(h: Hash, s: Db, op: Op) {
    && op.ImportEntries? && !NothingNew(s, op.es)
    && (Cyclic(Merge(s, op.es)) || (Refused(h, s, op) && !NoSkips(Arrivals(s, op.es))))
  }

  /** Storing adds a whole value, and an import its entries, accepted or not; nothing else changes what is stored. */
  ghost function Added(h: Hash, s: Db, op: Op): Db {
    if Stores(op) && IdOf(h, op) !in s then s[IdOf(h, op) := Whole(op.kind, op.bytes)]
    else if op.ImportEntries? && !NothingNew(s, op.es) then Normalized(Merge(s, op.es))
    else s
  }

  /** Deltas that get a value from what was added are whole from then on. */
  ghost function After(h: Hash, s: Db, op: Op): (r: Db)
    requires Acyclic(s)
    ensures Acyclic(r)
  {
    if Acyclic(Added(h, s, op)) then Ideal(h, Added(h, s, op)) else s
  }

  ghost function Reached(h: Hash, ops: seq<Op>): (r: Db)
    ensures Acyclic(r)
  {
    if ops == [] then EmptyIsHealthy(h); map[] else After(h, Reached(h, ops[..|ops| - 1]), ops[|ops| - 1])
  }

  ghost predicate RefusedAt(h: Hash, ops: seq<Op>, i: nat)
    requires i < |ops|
  {
    Refused(h, Reached(h, ops[..i]), ops[i])
  }

  ghost predicate BreaksAt(h: Hash, ops: seq<Op>, i: nat)
    requires i < |ops|
  {
    Breaks(h, Reached(h, ops[..i]), ops[i])
  }

  /** How many operations come before the first that breaks the store. */
  ghost function Carried(h: Hash, ops: seq<Op>): (n: nat)
    ensures n <= |ops|
    ensures forall i :: 0 <= i < n ==> !BreaksAt(h, ops, i)
    ensures n < |ops| ==> BreaksAt(h, ops, n)
  {
    if ops == [] then 0
    else
      var init := ops[..|ops| - 1];
      var n := Carried(h, init);
      assert forall i :: 0 <= i < |init| ==> init[..i] == ops[..i];
      assert forall i :: 0 <= i < |init| ==> BreaksAt(h, init, i) == BreaksAt(h, ops, i);
      if n < |init| || BreaksAt(h, ops, n) then n else |ops|
  }

  /** What is known of the ids of `s` stays in `later`: a value keeps its bytes, a delta without one is kept as it is or
      gets a value that hashes to its id. */
  ghost predicate Keeps(h: Hash, s: Db, later: Db)
    requires Acyclic(s) && Acyclic(later)
  {
    && s.Keys <= later.Keys && Within(Meaning(h, s), Meaning(h, later))
    && forall id :: id in s && id !in Meaning(h, s) ==>
         if id in Meaning(h, later) then Chained(s[id]) && h(Meaning(h, later)[id]) == id else later[id] == s[id]
  }

  /** The entries of an ideal store, and those added to them. */
  lemma AddedEntries(h: Hash, s: Db, op: Op)
    ensures s.Keys <= Added(h, s, op).Keys
    ensures forall id :: id in s ==> WithDepth(Added(h, s, op)[id], 0) == WithDepth(s[id], 0)
  {
    hide Normalized, NormalizedOn;
    if op.ImportEntries? {
      var merged := Merge(s, op.es);
      MergeFacts(s, op.es);
      forall id | id in s
        ensures id in Normalized(merged) && WithDepth(Normalized(merged)[id], 0) == WithDepth(s[id], 0)
      {
        NormalizedBare(merged, merged.Keys, id);
        assert Normalized(merged) == NormalizedOn(merged, merged.Keys) by { NormalizedIs(merged); }
      }
    }
  }

  lemma NormalizedIs(db: Db)
    ensures Normalized(db) == NormalizedOn(db, db.Keys)
  {
  }

  lemma AddedIsValid(h: Hash, s: Db, op: Op)
    requires IsIdeal(h, s) && BoundedOp(op) && Acyclic(Added(h, s, op))
    ensures Acyclic(s) && ValidDb(h, Added(h, s, op)) && Within(Meaning(h, s), Meaning(h, Added(h, s, op)))
  {
    hide Mat, Sound, Acyclic, NormalizedOn, Merge, Healthy, Awaited;
    if Stores(op) && IdOf(h, op) !in s {
      StoreWholeKeeps(h, s, op.kind, IdOf(h, op), op.bytes);
    } else if op.ImportEntries? && !NothingNew(s, op.es) {
      FittingIsBounded(op.es);
      AllSkipless(h, s, op.es);
      ImportSeesValues(h, s, op.es, Merge(s, op.es).Keys);
    }
  }

  lemma WaitingHash(h: Hash, db: Db, id: ValueId)
    requires Acyclic(db) && id in db && id in Meaning(h, db) && db[id].kind == Delta
    ensures Chained(db[id]) && h(Meaning(h, db)[id]) == id
  {
    MeaningStep(h, db, id);
  }

  /** One operation keeps what is known. */
  lemma AfterKeeps(h: Hash, s: Db, op: Op)
    requires Acyclic(s) && IsIdeal(h, s) && BoundedOp(op)
    ensures IsIdeal(h, After(h, s, op)) && Keeps(h, s, After(h, s, op))
    ensures Acyclic(Added(h, s, op)) ==> Meaning(h, After(h, s, op)) == Meaning(h, Added(h, s, op))
  {
    hide Mat, Sound, Acyclic, Added, Within;
    var added := Added(h, s, op);
    if Acyclic(added) {
      AddedIsValid(h, s, op);
      AddedEntries(h, s, op);
      IdealMeans(h, added);
      forall id | id in s && id !in Meaning(h, s)
        ensures if id in Meaning(h, added) then Chained(s[id]) && h(Meaning(h, added)[id]) == id
                else Ideal(h, added)[id] == s[id]
      {
        WithDepthSame(added[id], s[id]);
        NoValueIsDelta(h, s, id);
        assert s[id] == WithDepth(s[id], 0);
        if id in Meaning(h, added) {
          WaitingHash(h, added, id);
        }
      }
    } else {
      WithinItself(Meaning(h, s));
    }
  }

  lemma NoValueIsDelta(h: Hash, db: Db, id: ValueId)
    requires Acyclic(db) && id in db && id !in Meaning(h, db)
    ensures db[id].kind == Delta
  {
    MeaningStep(h, db, id);
  }

  lemma WithinItself(m: Model)
    ensures Within(m, m)
  {
  }

  lemma {:induction false} ReachedIsIdeal(h: Hash, ops: seq<Op>)
    requires BoundedOps(ops)
    ensures IsIdeal(h, Reached(h, ops))
    decreases |ops|
  {
    hide After, IsIdeal, Acyclic, BoundedOp;
    if ops == [] {
      NothingIsIdeal(h);
    } else {
      ReachedIsIdeal(h, ops[..|ops| - 1]);
      AfterKeeps(h, Reached(h, ops[..|ops| - 1]), ops[|ops| - 1]);
    }
  }

  lemma NothingIsIdeal(h: Hash)
    ensures IsIdeal(h, map[]) && Acyclic(map[]) && Meaning(h, map[]) == map[]
  {
    hide Mat, Acyclic;
    EmptyIsHealthy(h);
  }

  lemma KeepsOn(h: Hash, a: Db, b: Db, c: Db)
    requires Acyclic(a) && Acyclic(b) && Acyclic(c) && Keeps(h, a, b) && Keeps(h, b, c)
    ensures Keeps(h, a, c)
  {
    hide Mat, Acyclic;
  }

  lemma KeepsItself(h: Hash, a: Db)
    requires Acyclic(a)
    ensures Keeps(h, a, a)
  {
    hide Mat, Acyclic;
  }

  /** Whatever is known about an id stays: a value keeps its bytes, and an id without one keeps its entry, or is a delta that
      got a value with its hash. */
  lemma {:induction false} ValuesNeverChange(h: Hash, ops: seq<Op>, k: nat)
    requires BoundedOps(ops) && k <= |ops|
    ensures Keeps(h, Reached(h, ops[..k]), Reached(h, ops))
    decreases |ops|
  {
    hide After, IsIdeal, Acyclic, Keeps, BoundedOp;
    ReachedIsIdeal(h, ops[..k]);
    if k == |ops| {
      assert ops[..k] == ops;
      KeepsItself(h, Reached(h, ops));
    } else {
      var init := ops[..|ops| - 1];
      assert init[..k] == ops[..k];
      ValuesNeverChange(h, init, k);
      ReachedIsIdeal(h, init);
      AfterKeeps(h, Reached(h, init), ops[|ops| - 1]);
      KeepsOn(h, Reached(h, ops[..k]), Reached(h, init), Reached(h, ops));
    }
  }

  /** The operation that brings an id in: before it the id is unknown, after it the id is known. */
  ghost predicate Brings(h: Hash, ops: seq<Op>, id: ValueId, i: nat) {
    i < |ops| && id !in Reached(h, ops[..i]) && id in After(h, Reached(h, ops[..i]), ops[i])
  }

  /** Exactly the ids some operation brought in are known, and a stored value is the bytes of the operation that did:
      those of the put, or of the first entry imported under that id when it came in whole. */
  lemma {:induction false} FirstStoreWins(h: Hash, ops: seq<Op>, id: ValueId)
    requires BoundedOps(ops)
    ensures id in Reached(h, ops) <==> exists i: nat :: Brings(h, ops, id, i)
    ensures forall i: nat :: Brings(h, ops, id, i) && Stores(ops[i]) ==>
      IdOf(h, ops[i]) == id && ValueIn(Meaning(h, Reached(h, ops)), id) == ValueOf(ops[i].kind, ops[i].bytes)
    ensures forall i: nat :: Brings(h, ops, id, i) && !Stores(ops[i]) ==>
      && ops[i].ImportEntries? && id in Merge(Reached(h, ops[..i]), ops[i].es)
      && var e, m := Merge(Reached(h, ops[..i]), ops[i].es)[id], Meaning(h, Reached(h, ops));
         if e.kind != Delta then ValueIn(m, id) == Some(e.bytes) else id in m ==> h(m[id]) == id
  {
    hide After, Acyclic, Keeps, Merge, Meaning, IsIdeal;
    ReachedIsIdeal(h, ops);
    forall i: nat | Brings(h, ops, id, i)
      ensures id in Reached(h, ops)
      ensures Stores(ops[i]) ==>
        IdOf(h, ops[i]) == id && ValueIn(Meaning(h, Reached(h, ops)), id) == ValueOf(ops[i].kind, ops[i].bytes)
      ensures !Stores(ops[i]) ==>
        && ops[i].ImportEntries? && id in Merge(Reached(h, ops[..i]), ops[i].es)
        && var e, m := Merge(Reached(h, ops[..i]), ops[i].es)[id], Meaning(h, Reached(h, ops));
           if e.kind != Delta then ValueIn(m, id) == Some(e.bytes) else id in m ==> h(m[id]) == id
    {
      assert ops[..i + 1][..i] == ops[..i] && ops[..i + 1][i] == ops[i];
      ReachedIsIdeal(h, ops[..i]);
      ReachedIsIdeal(h, ops[..i + 1]);
      ValuesNeverChange(h, ops, i + 1);
      BroughtValue(h, Reached(h, ops[..i]), ops[i], id);
      BroughtStays(h, Reached(h, ops[..i + 1]), Reached(h, ops), id);
    }
    KnownWasBrought(h, ops, id);
  }

  /** What is known of an id when it comes in is known of it later. */
  lemma BroughtStays(h: Hash, s: Db, later: Db, id: ValueId)
    requires Acyclic(s) && Acyclic(later) && Keeps(h, s, later) && id in s
    ensures id in later
    ensures id in Meaning(h, s) ==> ValueIn(Meaning(h, later), id) == ValueIn(Meaning(h, s), id)
    ensures id !in Meaning(h, s) && !Chained(s[id]) ==> ValueIn(Meaning(h, later), id) == None
    ensures id !in Meaning(h, s) && id in Meaning(h, later) ==> h(Meaning(h, later)[id]) == id
  {
    hide Mat, Acyclic;
  }

  lemma {:induction false} KnownWasBrought(h: Hash, ops: seq<Op>, id: ValueId)
    ensures id in Reached(h, ops) ==> exists i: nat :: Brings(h, ops, id, i)
    decreases |ops|
  {
    hide After;
    if ops != [] && id in Reached(h, ops) {
      var init := ops[..|ops| - 1];
      KnownWasBrought(h, init, id);
      if id in Reached(h, init) {
        var i: nat :| Brings(h, init, id, i);
        assert init[..i] == ops[..i];
        assert Brings(h, ops, id, i);
      } else {
        assert Brings(h, ops, id, |ops| - 1);
      }
    }
  }

  /** The value of an id the operation brings in. */
  lemma BroughtValue(h: Hash, s: Db, op: Op, id: ValueId)
    requires Acyclic(s) && IsIdeal(h, s) && BoundedOp(op) && id !in s && id in After(h, s, op)
    ensures Stores(op) ==>
      && IdOf(h, op) == id && ValueIn(Meaning(h, After(h, s, op)), id) == ValueOf(op.kind, op.bytes)
      && (op.kind == Delta ==> !Chained(After(h, s, op)[id]))
    ensures !Stores(op) ==>
      && op.ImportEntries? && id in Merge(s, op.es)
      && var e, m := Merge(s, op.es)[id], Meaning(h, After(h, s, op));
         if e.kind != Delta then ValueIn(m, id) == Some(e.bytes) else id in m ==> h(m[id]) == id
  {
    hide Mat, Sound, Acyclic, Merge, NormalizedOn, Healthy, Awaited;
    AfterKeeps(h, s, op);
    var added := Added(h, s, op);
    AddedIsValid(h, s, op);
    MeaningStep(h, added, id);
    if Stores(op) {
      StoreWholeKeeps(h, s, op.kind, IdOf(h, op), op.bytes);
    } else {
      NormalizedSame(Merge(s, op.es), Merge(s, op.es).Keys, id);
      if id in Meaning(h, added) && added[id].kind == Delta {
        WaitingHash(h, added, id);
      }
    }
  }

  /******* Stores in step with what is expected *******/

  /** No entry is longer, or said to be longer, than a machine word can say. */
  ghost predicate Short(db: Db) {
    forall id :: id in db ==> ValueSegment.Fits(db[id])
  }

  ghost predicate InStep(s: ValueStore, e: Db)
    reads s, s.bloom
  {
    s.Valid() && Short(s.Db()) && Ideal(s.h, s.Db()) == e
  }

  lemma StoredIsShort(h: Hash, db: Db, p: DeltaPolicy, kind: ValueKind, bytes: Bytes, base: Option<ValueId>, id: ValueId)
    requires Acyclic(db) && Short(db) && |bytes| < U64
    ensures Short(db[id := Whole(kind, bytes)]) && Short(db[id := EntryFor(h, db, p, kind, bytes, base)])
  {
    hide Acyclic, Mat, BuildPatch, SkipPatches;
  }

  lemma CompactedIsShort(h: Hash, db: Db, p: DeltaPolicy)
    requires ValidDb(h, db) && Short(db)
    ensures Short(Compacted(h, db, p))
  {
    hide Mat, BuildPatch, SkipPatches;
    FlattenedSound(h, db, Meaning(h, db), p, db.Keys);
    forall id | id in db && Mat(h, db, id, false).Ok?
      ensures |Mat(h, db, id, false).value.bytes| < U64
    {
      assert id in Meaning(h, db);
    }
  }

  lemma NormalizedIsShort(db: Db, done: set<ValueId>)
    requires Short(db)
    ensures Short(NormalizedOn(db, done))
  {
    forall id | id in db {
      NormalizedSame(db, done, id);
    }
  }

  lemma MergedIsShort(db: Db, es: Incoming, done: set<ValueId>)
    requires Short(db) && EntriesFit(es)
    ensures Short(Merge(db, es)) && Short(NormalizedOn(Merge(db, es), done))
  {
    MergeFacts(db, es);
    NormalizedIsShort(Merge(db, es), done);
  }

  lemma EntriesAreFit(db: Db, es: Incoming)
    requires Short(db) && StoreReload.ListsDb(es, db)
    ensures EntriesFit(es)
  {
  }

  /** The parts of `InStep`, for a store whose entries are `db`. */
  lemma InStepIs(s: ValueStore, e: Db)
    requires s.Shape() || s.Valid() || InStep(s, e)
    ensures s.Shape()
    ensures InStep(s, e) <==> s.ShadowsOk() && ValidDb(s.h, s.Db()) && Short(s.Db()) && Ideal(s.h, s.Db()) == e
    ensures ValidDb(s.h, s.Db()) ==> Acyclic(s.Db())
    ensures (s.Intact() <==> s.ShadowsOk()) && (s.Valid() <==> s.ShadowsOk() && ValidDb(s.h, s.Db()))
  {
    hide Mat, Sound, Acyclic;
  }

  /** The part of a store that a refused import cannot reach, seen from the ideal store. */
  lemma FixedOfIdeal(h: Hash, db: Db)
    requires ValidDb(h, db)
    ensures Acyclic(Ideal(h, db)) && Fixed(h, Ideal(h, db)) == Fixed(h, db)
    ensures Restrict(db, Fixed(h, db)).Keys == Fixed(h, db)
    ensures Meaning(h, Ideal(h, db)) == Meaning(h, db)
  {
    hide Mat, Sound, Acyclic;
    IdealMeans(h, db);
  }

  /** The values expected are rebuilt by a part of the store in working order, which holds all but the waiting deltas. */
  ghost predicate Serves(s: ValueStore, part: Db, e: Db)
    reads s, s.bloom
    requires Acyclic(e)
  {
    && s.Intact() && IsPart(part, s.Db()) && ValidDb(s.h, part) && Complete(s.h, part)
    && part.Keys == Fixed(s.h, e) && Meaning(s.h, part) == Meaning(s.h, e)
  }

  /** What a run expects of an import is what the store does with it. */
  lemma ImportAsExpected(h: Hash, db: Db, e: Db, es: Incoming, after: Db, done: set<ValueId>)
    requires ValidDb(h, db) && Ideal(h, db) == e && EntriesFit(es)
    requires after == if Merge(db, es) == db then db
                      else if Acceptable(h, Merge(db, es)) then Normalized(Merge(db, es))
                      else NormalizedOn(Merge(db, es), done)
    ensures Merge(db, es) == db <==> NothingNew(e, es)
    ensures Refused(h, e, ImportEntries(es)) <==> !(Merge(db, es) == db || Acceptable(h, Merge(db, es)))
    ensures !Breaks(h, e, ImportEntries(es)) ==>
      Acyclic(after) && ValidDb(h, after) && Ideal(h, after) == After(h, e, ImportEntries(es))
  {
    hide Mat, Sound, Acyclic, Merge, NormalizedOn, Acceptable, Meaning, Cyclic, NoSkips, Skipless;
    FittingIsBounded(es);
    MergeFacts(db, es);
    NothingNewIs(db, e, es);
    IdealMeans(h, db);
    SameArrivals(db, e, es);
    ImportSeesValues(h, db, es, done);
    if NothingNew(e, es) {
      assert After(h, e, ImportEntries(es)) == Ideal(h, e);
    } else if !Breaks(h, e, ImportEntries(es)) {
      var all := if Acceptable(h, Merge(db, es)) then Merge(db, es).Keys else done;
      assert after == NormalizedOn(Merge(db, es), all) by { NormalizedIs(Merge(db, es)); }
      ImportSeesValues(h, db, es, all);
      if Acceptable(h, Merge(db, es)) {
        AllSkipless(h, db, es);
      } else {
        DecodedSkipless(h, db, es, done);
      }
    }
  }

  lemma NothingNewIs(db: Db, e: Db, es: Incoming)
    requires db.Keys == e.Keys
    ensures Merge(db, es) == db <==> NothingNew(e, es)
  {
    MergeFacts(db, es);
    if NothingNew(e, es) {
      assert Merge(db, es).Keys == db.Keys;
    }
  }

  lemma SameArrivals(a: Db, b: Db, es: Incoming)
    requires a.Keys == b.Keys
    ensures Arrivals(a, es) == Arrivals(b, es)
  {
    hide Merge;
    MergeSame(a, b, es);
  }

  method ApplyImport(s: ValueStore, es: Incoming, ghost e: Db) returns (refused: bool, ghost part: Db)
    requires InStep(s, e) && Acyclic(e) && EntriesFit(es)
    modifies s, s.bloom
    ensures s.policy == old(s.policy)
    ensures refused <==> Refused(s.h, e, ImportEntries(es))
    ensures !Breaks(s.h, e, ImportEntries(es)) ==> InStep(s, After(s.h, e, ImportEntries(es)))
    ensures Serves(s, part, e)
    ensures !refused && old(s.Shape() && Healthy(s.h, s.Db())) ==> s.Shape() && Healthy(s.h, s.Db())
  {
    hide *;
    InStepIs(s, e);
    ghost var db := s.Db();
    part := Restrict(db, Fixed(s.h, db));
    FixedOfIdeal(s.h, db);
    FixedPart(s.h, db);
    FittingIsBounded(es);
    var outcome := s.ImportTransferEntries(es, part);
    refused := outcome.Err?;
    ghost var done := DepthsDone(Merge(db, es), s.entryIds);
    LoosenedIs(Merge(db, es), s.entryIds);
    NormalizedIs(Merge(db, es));
    ImportAsExpected(s.h, db, e, es, s.Db(), done);
    MergedIsShort(db, es, done);
    MergedIsShort(db, es, Merge(db, es).Keys);
    InStepIs(s, After(s.h, e, ImportEntries(es)));
    StandsServes(s, part, e);
    part := Restrict(s.Db(), part.Keys);
  }

  /** A part that stands still serves. */
  lemma StandsServes(s: ValueStore, part: Db, e: Db)
    requires s.Intact() && Acyclic(part) && Acyclic(e) && Stands(s.h, part, s.Db())
    requires part.Keys == Fixed(s.h, e) && Meaning(s.h, part) == Meaning(s.h, e)
    ensures Serves(s, Restrict(s.Db(), part.Keys), e)
  {
    hide ValidDb, Acyclic, Meaning, IsPart, Complete, Fixed, Healthy;
    assert Restrict(s.Db(), part.Keys).Keys == part.Keys;
  }

  lemma ReloadedInStep(h: Hash, db: Db, loaded: Db)
    requires ValidDb(h, db) && ValidDb(h, loaded) && Short(db)
    requires loaded == Normalized(StoreReload.KeptDb(db)) && Meaning(h, loaded) == Meaning(h, db)
    requires Meaning(h, db).Keys == db.Keys
    ensures Short(loaded) && Ideal(h, loaded) == Ideal(h, db)
  {
    hide Mat, Sound, Acyclic, NormalizedOn;
    NormalizedIsShort(StoreReload.KeptDb(db), db.Keys);
    NormalizedIs(StoreReload.KeptDb(db));
  }

  /** Writes the store to a segment and loads it again; one that cannot be written, or has an id without a value, stays as
      it is. */
  method ApplyReload(crc: Crc, z: Zstd, s: ValueStore, created: u64, ghost e: Db) returns (s': ValueStore)
    requires Lossless(z) && InStep(s, e)
    ensures s' == s || (fresh(s') && fresh(s'.bloom))
    ensures s'.h == s.h && InStep(s', e)
    ensures s.Shape() && s'.Shape() && (Healthy(s.h, s.Db()) ==> Healthy(s.h, s'.Db()))
  {
    hide *;
    InStepIs(s, e);
    StoreReload.ListingListsDb(s);
    StoreReload.ValidMeans(s);
    EntriesAreFit(s.Db(), StoreReload.Listing(s));
    var written, loaded := StoreReload.WriteThenLoad(crc, z, s, s.config.(policy := s.policy), created);
    s' := s;
    if written.Ok? && |written.value| < U64 && loaded.Ok? {
      s' := loaded.value;
      StoreReload.ValidMeans(s');
      ReloadedInStep(s.h, s.Db(), s'.Db());
      InStepIs(s', e);
    }
  }

  /** What a run expects of storing a value is what the store does with it. */
  lemma PutInStep(h: Hash, db: Db, e: Db, op: Op, stored: Db)
    requires ValidDb(h, db) && Short(db) && Ideal(h, db) == e && Stores(op) && BoundedOp(op)
    requires IdOf(h, op) in db ==> stored == db
    requires IdOf(h, op) !in db ==> var id, v := IdOf(h, op), ValueOf(op.kind, op.bytes);
      && id in stored && stored == db[id := stored[id]] && StoredInto(h, db, id, stored[id], v)
      && ValueSegment.Fits(stored[id]) && (stored[id] == Whole(op.kind, op.bytes) || op.kind == Cell)
    ensures ValidDb(h, stored) && Short(stored) && Ideal(h, stored) == After(h, e, op)
    ensures Healthy(h, db) ==> Healthy(h, stored)
  {
    hide Mat, Sound, Acyclic, DepthsBound, Complete, Awaited, Meaning, ValueSegment.Fits;
    IdealMeans(h, db);
    if IdOf(h, op) !in db {
      StoreWholeKeeps(h, e, op.kind, IdOf(h, op), op.bytes);
      SamePut(h, db, e, IdOf(h, op), stored[IdOf(h, op)], op.kind, op.bytes);
    }
  }

  lemma WholeFits(kind: ValueKind, bytes: Bytes)
    requires |bytes| < U64
    ensures ValueSegment.Fits(Whole(kind, bytes))
  {
  }

  lemma DeltaFits(s: ValueStore, kind: ValueKind, bytes: Bytes, base: Option<ValueId>)
    requires s.Shape() && Acyclic(s.Db()) && Short(s.Db()) && |bytes| < U64
    ensures ValueSegment.Fits(s.DeltaOrWhole(kind, bytes, base))
  {
    hide Acyclic, EntryFor, ValueStore.Shape, ValueSegment.Fits;
    WholeFits(kind, bytes);
    StoredIsShort(s.h, s.Db(), s.policy, kind, bytes, base, s.h(bytes));
    assert s.Db()[s.h(bytes) := EntryFor(s.h, s.Db(), s.policy, kind, bytes, base)][s.h(bytes)]
      == EntryFor(s.h, s.Db(), s.policy, kind, bytes, base);
  }

  lemma OpIsBounded(op: Op)
    requires Stores(op) && BoundedOp(op)
    ensures |op.bytes| < U64 && (op.Put? || op.PutWithId? || op.PutWithDelta?)
    ensures forall h: Hash :: IdOf(h, op) == if op.PutWithId? then op.id else h(op.bytes)
  {
  }

  method ApplyPut(s: ValueStore, op: Op, ghost e: Db)
    requires InStep(s, e) && Acyclic(e) && BoundedOp(op) && Stores(op)
    modifies s, s.bloom
    ensures InStep(s, After(s.h, e, op))
    ensures s.Shape() && (old(s.Shape() && Healthy(s.h, s.Db())) ==> Healthy(s.h, s.Db()))
  {
    hide *;
    InStepIs(s, e);
    OpIsBounded(op);
    ghost var db := s.Db();
    WholeFits(op.kind, op.bytes);
    if op.Put? {
      var id := s.Put(op.kind, op.bytes);
    } else if op.PutWithId? {
      s.PutWithId(op.kind, op.id, op.bytes);
    } else {
      DeltaFits(s, op.kind, op.bytes, op.base);
      var id := s.PutWithDelta(op.kind, op.bytes, op.base);
    }
    PutInStep(s.h, db, e, op, s.Db());
    InStepIs(s, After(s.h, e, op));
  }

  lemma CompactedInStep(h: Hash, db: Db, p: DeltaPolicy)
    requires ValidDb(h, db) && Short(db)
    ensures ValidDb(h, Compacted(h, db, p)) && Short(Compacted(h, db, p)) && Acyclic(db) && Acyclic(Compacted(h, db, p))
    ensures Ideal(h, Compacted(h, db, p)) == Ideal(h, db)
  {
    hide Mat, Sound, Acyclic, Compacted, Meaning;
    CompactKeeps(h, db, p);
    CompactedIsShort(h, db, p);
    CompactedKeys(h, db, p);
    forall id | id in db && id !in Meaning(h, db) {
      WaitingStay(h, db, p, id);
    }
  }

  /** Carries out one operation other than an import. */
  method Apply(crc: Crc, z: Zstd, s: ValueStore, op: Op, ghost e: Db) returns (s': ValueStore)
    requires Lossless(z) && InStep(s, e) && IsIdeal(s.h, e) && BoundedOp(op) && !op.ImportEntries?
    modifies s, s.bloom
    ensures s' == s || (fresh(s') && fresh(s'.bloom))
    ensures s'.h == s.h && InStep(s', After(s.h, e, op))
    ensures s'.Shape() && (old(s.Shape() && Healthy(s.h, s.Db())) ==> Healthy(s.h, s'.Db()))
  {
    hide *;
    InStepIs(s, e);
    NothingAdded(s.h, e, op);
    ghost var db := s.Db();
    s' := s;
    if op.Put? || op.PutWithId? || op.PutWithDelta? {
      ApplyPut(s, op, e);
    } else if op.SetPolicy? {
      s.SetDeltaPolicy(op.policy);
    } else if op.Compact? {
      CompactedInStep(s.h, db, s.policy);
      var rewritten := s.CompactDeltas();
    } else if op.Refresh? {
      s.RefreshLearnedIndex();
    } else {
      s' := ApplyReload(crc, z, s, op.created, e);
    }
    InStepIs(s', After(s.h, e, op));
  }

  lemma NothingAdded(h: Hash, e: Db, op: Op)
    requires IsIdeal(h, e)
    ensures Acyclic(e) && (!Stores(op) && !op.ImportEntries? ==> After(h, e, op) == e)
    ensures Stores(op) <==> op.Put? || op.PutWithId? || op.PutWithDelta?
  {
    hide Mat, Sound, Acyclic;
  }

  /** Carries out one operation; whatever becomes of an import, what was expected is in a part of the store. */
  method Step(crc: Crc, z: Zstd, s: ValueStore, op: Op, ghost e: Db)
    returns (s': ValueStore, refused: bool, ghost part: Db)
    requires Lossless(z) && InStep(s, e) && IsIdeal(s.h, e) && BoundedOp(op)
    modifies s, s.bloom
    ensures s' == s || (fresh(s') && fresh(s'.bloom))
    ensures s'.h == s.h && (refused <==> Refused(s.h, e, op))
    ensures Acyclic(e) && if Breaks(s.h, e, op) then Serves(s', part, e) else InStep(s', After(s.h, e, op))
    ensures s'.Shape() && (!refused && old(s.Shape() && Healthy(s.h, s.Db())) ==> Healthy(s.h, s'.Db()))
  {
    hide *;
    InStepIs(s, e);
    NothingAdded(s.h, e, op);
    OnlyImports(s.h, e, op);
    s', refused, part := s, false, map[];
    if op.ImportEntries? {
      refused, part := ApplyImport(s, op.es, e);
      ServesIs(s, part, e);
    } else {
      s' := Apply(crc, z, s, op, e);
    }
  }

  lemma OnlyImports(h: Hash, e: Db, op: Op)
    requires BoundedOp(op)
    ensures if op.ImportEntries? then EntriesFit(op.es) && op == ImportEntries(op.es)
            else !Refused(h, e, op) && !Breaks(h, e, op)
  {
  }

  lemma ServesIs(s: ValueStore, part: Db, e: Db)
    requires Acyclic(e) && Serves(s, part, e)
    ensures s.Shape()
  {
    hide Mat, Acyclic;
  }

  /** Runs the operations, of which only the last may break the store. The run ends in a store in working order whose
      ideal is the one expected: the same ids, each with the value expected or waiting for one as expected. If the last
      operation breaks the store, it still holds what was expected, all but the deltas that waited, in a part that the
      import does not touch. While no import was refused, every delta has a value and recorded depths can be trusted. */
  method Replay(crc: Crc, z: Zstd, h: Hash, config: Config, ops: seq<Op>) returns (s: ValueStore, ghost part: Db)
    requires Lossless(z) && BoundedOps(ops) && Carried(h, ops) + 1 >= |ops|
    ensures fresh(s) && fresh(s.bloom) && s.h == h
    ensures if Carried(h, ops) == |ops| then InStep(s, Reached(h, ops))
            else Serves(s, part, Reached(h, ops[..Carried(h, ops)]))
    ensures Carried(h, ops) == |ops| && (forall i :: 0 <= i < |ops| ==> !RefusedAt(h, ops, i)) ==>
      s.Shape() && Healthy(h, s.Db())
  {
    hide *;
    s := new ValueStore(h, config);
    part := map[];
    NothingStored(h, s);
    assert ops[..0] == [];
    ghost var n := Carried(h, ops);
    for i := 0 to |ops|
      invariant fresh(s) && fresh(s.bloom) && s.h == h && s.Shape()
      invariant i <= n ==> InStep(s, Reached(h, ops[..i]))
      invariant i > n ==> Serves(s, part, Reached(h, ops[..n]))
      invariant i <= n && (forall j :: 0 <= j < i ==> !RefusedAt(h, ops, j)) ==> Healthy(h, s.Db())
    {
      ReachedStep(h, ops, i);
      var refused;
      s, refused, part := Step(crc, z, s, ops[i], Reached(h, ops[..i]));
    }
    assert ops[..|ops|] == ops;
    ReachedIsIdeal(h, ops);
  }

  lemma ReachedStep(h: Hash, ops: seq<Op>, i: nat)
    requires BoundedOps(ops) && i < |ops|
    ensures BoundedOp(ops[i]) && IsIdeal(h, Reached(h, ops[..i]))
    ensures Reached(h, ops[..i + 1]) == After(h, Reached(h, ops[..i]), ops[i])
    ensures RefusedAt(h, ops, i) == Refused(h, Reached(h, ops[..i]), ops[i])
    ensures BreaksAt(h, ops, i) == Breaks(h, Reached(h, ops[..i]), ops[i])
  {
    hide After, Refused, Breaks, IsIdeal, Acyclic, BoundedOp;
    assert ops[..i + 1][..i] == ops[..i] && ops[..i + 1][i] == ops[i];
    ReachedIsIdeal(h, ops[..i]);
  }

  lemma NothingStored(h: Hash, s: ValueStore)
    requires s.Valid() && s.h == h
    requires s.Shape() && Acyclic(s.Db()) ==> s.Db() == map[]
    ensures s.Shape() && InStep(s, Reached(h, []))
  {
    hide Mat;
  }

  /** What reading an id of the ideal store gives: its value, or what is wrong with the delta it waits as. */
  ghost function ReadIdeal(h: Hash, e: Db, id: ValueId): Outcome<Bytes>
    requires Acyclic(e)
  {
    if id in Meaning(h, e) then Ok(Meaning(h, e)[id]) else Err(Fault(h, e, Meaning(h, e), id))
  }

  lemma SameFault(h: Hash, db: Db, id: ValueId)
    requires ValidDb(h, db) && id !in Meaning(h, db)
    ensures Acyclic(Ideal(h, db)) && Fault(h, Ideal(h, db), Meaning(h, db), id) == Fault(h, db, Meaning(h, db), id)
  {
    hide Mat, Sound, Acyclic, Fault;
    IdealMeans(h, db);
    forall x | x in db && x !in Meaning(h, db)
      ensures SamePlain(db[x], Ideal(h, db)[x])
    {
      BareIsSame(db[x]);
    }
    FaultStays(h, db, Ideal(h, db), Meaning(h, db), id);
  }

  lemma BareIsSame(e: ValueEntry)
    ensures SamePlain(e, WithDepth(e, 0))
  {
  }

  lemma InStepReads(s: ValueStore, e: Db, id: ValueId)
    requires InStep(s, e) && Acyclic(e)
    ensures s.Shape() && Acyclic(s.Db()) && ValidDb(s.h, s.Db()) && s.Reaches(s.Db(), id)
    ensures ReadIdeal(s.h, e, id) == ReadIdeal(s.h, s.Db(), id)
  {
    hide Mat, Sound, Acyclic, Fault;
    WholeIsPart(s.Db());
    IdealMeans(s.h, s.Db());
    if id !in Meaning(s.h, s.Db()) {
      SameFault(s.h, s.Db(), id);
    }
  }

  lemma ServesReads(s: ValueStore, part: Db, e: Db, id: ValueId)
    requires Acyclic(e) && Serves(s, part, e) && id in Fixed(s.h, e)
    ensures s.Shape() && Acyclic(part) && ValidDb(s.h, part) && s.Reaches(part, id)
    ensures ReadIdeal(s.h, e, id) == ReadIdeal(s.h, part, id)
  {
    hide Mat, Sound, Acyclic;
    if id !in Meaning(s.h, e) {
      MeaningStepFixed(s.h, e, id);
      MeaningStepFixed(s.h, part, id);
    }
  }

  /** An entry that has no value and does not wait for one is a delta without its base record. */
  lemma MeaningStepFixed(h: Hash, db: Db, id: ValueId)
    requires Acyclic(db) && id in db && (id in Fixed(h, db) || Complete(h, db)) && id !in Meaning(h, db)
    ensures Fault(h, db, Meaning(h, db), id) == InvalidDelta
  {
  }

  /** Reading any id after any run: its value, or the error that says why there is none. After an import that broke the store
      the ids known before it, but for deltas that waited, still read as before. */
  method ReadBack(crc: Crc, z: Zstd, h: Hash, config: Config, ops: seq<Op>, id: ValueId) returns (r: Outcome<Bytes>)
    requires Lossless(z) && BoundedOps(ops) && Carried(h, ops) + 1 >= |ops|
    requires Carried(h, ops) < |ops| ==> id in Fixed(h, Reached(h, ops[..Carried(h, ops)]))
    ensures r == ReadIdeal(h, Reached(h, ops[..Carried(h, ops)]), id)
  {
    hide *;
    var s;
    ghost var part;
    s, part := Replay(crc, z, h, config, ops);
    ghost var e := Reached(h, ops[..Carried(h, ops)]);
    if Carried(h, ops) == |ops| {
      assert ops[..|ops|] == ops;
      InStepReads(s, e, id);
      part := s.Db();
    } else {
      ServesReads(s, part, e, id);
    }
    ReadIdealIs(h, part, id);
    r := s.Materialize(id, part);
  }

  lemma ReadIdealIs(h: Hash, e: Db, id: ValueId)
    requires Acyclic(e)
    ensures ReadIdeal(h, e, id) == if id in Meaning(h, e) then Ok(Meaning(h, e)[id]) else Err(Fault(h, e, Meaning(h, e), id))
  {
  }

  /** Two deltas that are each other's base, imported into an empty store: refused, yet stored, and the store is no
      longer well founded. */
  method ImportCircle(h: Hash, config: Config) returns (s: ValueStore, r: Outcome<nat>)
    ensures r.Err? && s.Shape() && s.Db().Keys == {ID_A, ID_B} && !Acyclic(s.Db())
  {
    hide Acyclic, Healthy, Meaning, Acceptable, NormalizedOn, Stands;
    s := new ValueStore(h, config);
    CircleIsRefused(h);
    CircleMerged();
    r := s.ImportTransferEntries(CIRCLE, map[]);
  }
}

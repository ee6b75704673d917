/** What storing a delta and compacting a store do to the entries, and why the meaning survives. */
module Compaction {
  import opened Wrappers
  import opened Codec
  import opened Patch
  import opened ValueGraph

  /** When deltas are used. `minAllowed(len)` is the largest patch accepted for a value of `len` bytes:
      the source computes it in floating point from a ratio. */
  datatype DeltaPolicy = DeltaPolicy(
    enabled: bool, minBytes: nat, maxChain: nat, minAllowed: nat -> u64, snapshotInterval: nat, maxSkip: nat)

  /******* Skip patches *******/

  /** The id reached by following `k` base links; it need not be stored itself. */
  function Ancestor(db: Db, id: ValueId, k: nat): Option<ValueId>
    decreases k
  {
    if k == 0 then Some(id)
    else if id !in db || db[id].delta.None? then None
    else Ancestor(db, db[id].delta.value.base, k - 1)
  }

  /** Patches against the ancestors at distances `distance`, twice that, and so on, after those in `found`. */
  ghost function SkipPatchesFrom(h: Hash, db: Db, bytes: Bytes, base: ValueId, depth: nat, maxSkip: nat,
                                 distance: nat, found: seq<SkipPatch>): seq<SkipPatch>
    requires Acyclic(db) && distance >= 1
    decreases depth - distance
  {
    if distance > depth || |found| >= maxSkip then found
    else
      var ancestor := Ancestor(db, base, distance - 1);
      if ancestor.None? || Mat(h, db, ancestor.value, false).Err? then found
      else
        var patch := BuildPatch(Mat(h, db, ancestor.value, false).value.bytes, bytes);
        if patch == [] then found
        else SkipPatchesFrom(h, db, bytes, base, depth, maxSkip, 2 * distance,
                             found + [SkipPatch(ancestor.value, patch, distance)])
  }

  ghost function SkipPatches(h: Hash, db: Db, bytes: Bytes, base: ValueId, depth: nat, maxSkip: nat): seq<SkipPatch>
    requires Acyclic(db)
  {
    if maxSkip > 0 then SkipPatchesFrom(h, db, bytes, base, depth, maxSkip, 2, []) else []
  }

  /** A usable skip patch: it rebuilds `bytes` from the ancestor at its distance. */
  ghost predicate SkipOk(db: Db, m: Model, bytes: Bytes, base: ValueId, depth: nat, s: SkipPatch) {
    && 2 <= s.distance <= depth
    && Ancestor(db, base, s.distance - 1) == Some(s.base)
    && s.base in m
    && ApplyPatch(m[s.base], s.patch) == Ok(bytes)
  }

  lemma {:induction false} SkipPatchesFromOk(h: Hash, db: Db, m: Model, bytes: Bytes, base: ValueId, depth: nat,
                                             maxSkip: nat, distance: nat, found: seq<SkipPatch>)
    requires Acyclic(db) && Sound(h, db, m) && distance >= 2 && |bytes| < U64
    requires |found| <= maxSkip && forall s :: s in found ==> SkipOk(db, m, bytes, base, depth, s)
    ensures var r := SkipPatchesFrom(h, db, bytes, base, depth, maxSkip, distance, found);
      |r| <= maxSkip && forall s :: s in r ==> SkipOk(db, m, bytes, base, depth, s)
    decreases depth - distance
  {
    hide ApplyPatch, BuildPatch, EntrySound, Ancestor;
    if distance <= depth && |found| < maxSkip {
      var ancestor := Ancestor(db, base, distance - 1);
      if ancestor.Some? && Mat(h, db, ancestor.value, false).Ok? {
        MatSound(h, db, m, ancestor.value, false);
        var from := m[ancestor.value];
        var patch := BuildPatch(from, bytes);
        if patch != [] {
          PatchRoundTrip(from, bytes);
          var s := SkipPatch(ancestor.value, patch, distance);
          assert SkipOk(db, m, bytes, base, depth, s);
          SkipPatchesFromOk(h, db, m, bytes, base, depth, maxSkip, 2 * distance, found + [s]);
        }
      }
    }
  }

  /** At most `maxSkip` skip patches, each against the ancestor its distance names, each rebuilding the same bytes. */
  lemma SkipPatchesOk(h: Hash, db: Db, m: Model, bytes: Bytes, base: ValueId, depth: nat, maxSkip: nat)
    requires Acyclic(db) && Sound(h, db, m) && |bytes| < U64
    ensures var r := SkipPatches(h, db, bytes, base, depth, maxSkip);
      |r| <= maxSkip && forall s :: s in r ==> SkipOk(db, m, bytes, base, depth, s)
  {
    if maxSkip > 0 {
      SkipPatchesFromOk(h, db, m, bytes, base, depth, maxSkip, 2, []);
    }
  }

  function Pow2(k: nat): (n: nat)
    ensures n >= 1
  {
    if k == 0 then 1 else 2 * Pow2(k - 1)
  }

  /** The skip patches are spaced 2, 4, 8, and so on, and none that could be had is missing: they end at the limit, at the
      depth, or at an ancestor that is not there, has no value, or has the very bytes. */
  ghost predicate Doubling(db: Db, m: Model, bytes: Bytes, base: ValueId, depth: nat, maxSkip: nat, skip: seq<SkipPatch>) {
    && (forall j :: 0 <= j < |skip| ==> skip[j].distance == Pow2(j + 1))
    && (|skip| >= maxSkip || Pow2(|skip| + 1) > depth
        || var a := Ancestor(db, base, Pow2(|skip| + 1) - 1);
           a.None? || a.value !in m || m[a.value] == bytes)
  }

  lemma {:induction false} SkipPatchesFromDouble(h: Hash, db: Db, m: Model, bytes: Bytes, base: ValueId, depth: nat,
                                                 maxSkip: nat, distance: nat, found: seq<SkipPatch>)
    requires Acyclic(db) && Sound(h, db, m) && distance == Pow2(|found| + 1) && distance >= 1
    requires forall j :: 0 <= j < |found| ==> found[j].distance == Pow2(j + 1)
    ensures Doubling(db, m, bytes, base, depth, maxSkip,
                     SkipPatchesFrom(h, db, bytes, base, depth, maxSkip, distance, found))
    decreases depth - distance
  {
    hide ApplyPatch, BuildPatch, EntrySound, Ancestor, Mat;
    if distance <= depth && |found| < maxSkip {
      var ancestor := Ancestor(db, base, distance - 1);
      if ancestor.Some? {
        MatSound(h, db, m, ancestor.value, false);
        if ancestor.value in m && m[ancestor.value] != bytes {
          var s := SkipPatch(ancestor.value, BuildPatch(m[ancestor.value], bytes), distance);
          SkipPatchesFromDouble(h, db, m, bytes, base, depth, maxSkip, 2 * distance, found + [s]);
        }
      }
    }
  }

  lemma SkipPatchesDouble(h: Hash, db: Db, m: Model, bytes: Bytes, base: ValueId, depth: nat, maxSkip: nat)
    requires Acyclic(db) && Sound(h, db, m)
    ensures Doubling(db, m, bytes, base, depth, maxSkip, SkipPatches(h, db, bytes, base, depth, maxSkip))
  {
    hide Sound;
    if maxSkip > 0 {
      assert Pow2(1) == 2;
      SkipPatchesFromDouble(h, db, m, bytes, base, depth, maxSkip, 2, []);
    }
  }

  /** Following `k` base links shortens a chain by exactly `k`. */
  lemma {:induction false} AncestorIs(db: Db, id: ValueId, n: nat, k: nat)
    requires ChainLen(db, id, n) && k <= n
    ensures Ancestor(db, id, k).Some? && ChainLen(db, Ancestor(db, id, k).value, n - k)
    decreases k
  {
    if k > 0 {
      AncestorIs(db, db[id].delta.value.base, n - 1, k - 1);
    }
  }

  /******* Storing a value *******/

  function StoredDepth(e: ValueEntry): nat {
    if e.delta.Some? then e.delta.value.depth else 0
  }

  function Whole(kind: ValueKind, bytes: Bytes): ValueEntry {
    ValueEntry(kind, bytes, None)
  }

  /** The policy refuses a delta of this length at this depth. */
  predicate Refuses(p: DeltaPolicy, len: nat, depth: nat) {
    || len < p.minBytes
    || (p.maxChain > 0 && depth > p.maxChain)
    || (p.snapshotInterval > 0 && depth % p.snapshotInterval == 0)
  }

  /** The entry `put_with_delta` stores for a value it has not seen. */
  ghost function EntryFor(h: Hash, db: Db, p: DeltaPolicy, kind: ValueKind, bytes: Bytes, base: Option<ValueId>): ValueEntry
    requires Acyclic(db)
  {
    if !p.enabled || base.None? || kind != Cell || base.value !in db then Whole(kind, bytes)
    else
      var from, depth := Mat(h, db, base.value, false), StoredDepth(db[base.value]) + 1;
      if from.Err? || Refuses(p, |bytes|, depth) then Whole(kind, bytes)
      else
        var patch := BuildPatch(from.value.bytes, bytes);
        if patch == [] || |patch| > p.minAllowed(|bytes|) then Whole(kind, bytes)
        else
          var skip := SkipPatches(h, db, bytes, base.value, depth, p.maxSkip);
          ValueEntry(Delta, patch, Some(DeltaEntry(base.value, |bytes|, depth, skip)))
  }

  /** The model value a stored entry stands for; a `Delta` stored whole can never be rebuilt. */
  function ValueOf(kind: ValueKind, bytes: Bytes): Option<Bytes> {
    if kind == Delta then None else Some(bytes)
  }

  /** What storing a value does to the meaning: the new id gets its bytes and every value stays; nothing else gets a value
      unless it was waiting for the id. */
  ghost predicate StoredInto(h: Hash, db: Db, id: ValueId, e: ValueEntry, v: Option<Bytes>)
    requires Acyclic(db)
  {
    var db' := db[id := e];
    && ValidDb(h, db')
    && ValueIn(Meaning(h, db'), id) == v && Within(Meaning(h, db), Meaning(h, db'))
    && (!Awaited(h, db, id) ==> Meaning(h, db') == Extend(Meaning(h, db), id, v))
    && (Healthy(h, db) ==> Healthy(h, db') && Meaning(h, db') == Extend(Meaning(h, db), id, v))
  }

  /** The policy admits a delta of this recorded depth. */
  predicate Admits(p: DeltaPolicy, depth: nat) {
    (p.maxChain == 0 || depth <= p.maxChain) && (p.snapshotInterval == 0 || depth % p.snapshotInterval != 0)
  }

  /** A put is worth a delta: the policy wants deltas of cells of this length and depth, the base has a value, another one,
      and the patch is small enough. */
  ghost predicate WorthADelta(h: Hash, db: Db, p: DeltaPolicy, kind: ValueKind, bytes: Bytes, base: Option<ValueId>)
    requires Acyclic(db)
  {
    && p.enabled && kind == Cell && |bytes| >= p.minBytes
    && base.Some? && base.value in Meaning(h, db) && Meaning(h, db)[base.value] != bytes
    && base.value in db && Admits(p, StoredDepth(db[base.value]) + 1)
    && |BuildPatch(Meaning(h, db)[base.value], bytes)| <= p.minAllowed(|bytes|)
  }

  /** What is stored: a delta against that base, of its length, one deeper than the base is recorded to be, exactly when it
      is worth one; the whole value otherwise. */
  ghost predicate StoredAs(h: Hash, db: Db, p: DeltaPolicy, kind: ValueKind, bytes: Bytes, base: Option<ValueId>,
                           e: ValueEntry)
    requires Acyclic(db)
  {
    if WorthADelta(h, db, p, kind, bytes, base) then
      && e.kind == Delta && e.delta.Some? && e.delta.value.base == base.value && e.delta.value.fullLen == |bytes|
      && e.delta.value.depth == StoredDepth(db[base.value]) + 1
      && e.bytes == BuildPatch(Meaning(h, db)[base.value], bytes)
      && (ValidDb(h, db) ==>
            Doubling(db, Meaning(h, db), bytes, base.value, e.delta.value.depth, p.maxSkip, e.delta.value.skip))
      && |e.delta.value.skip| <= p.maxSkip
    else e.kind == kind && e.bytes == bytes && e.delta.None?
  }

  lemma EntryIsStoredAs(h: Hash, db: Db, p: DeltaPolicy, kind: ValueKind, bytes: Bytes, base: Option<ValueId>)
    requires Acyclic(db)
    ensures StoredAs(h, db, p, kind, bytes, base, EntryFor(h, db, p, kind, bytes, base))
    ensures !p.enabled || base.None? || kind != Cell ==> EntryFor(h, db, p, kind, bytes, base) == Whole(kind, bytes)
  {
    hide SkipPatches, BuildPatch, Acyclic, Doubling;
    var e := EntryFor(h, db, p, kind, bytes, base);
    if WorthADelta(h, db, p, kind, bytes, base) {
      SkipPatchesFew(h, db, bytes, base.value, e.delta.value.depth, p.maxSkip);
      if ValidDb(h, db) {
        SkipPatchesDouble(h, db, Meaning(h, db), bytes, base.value, e.delta.value.depth, p.maxSkip);
      }
    }
  }

  lemma SkipPatchesFew(h: Hash, db: Db, bytes: Bytes, base: ValueId, depth: nat, maxSkip: nat)
    requires Acyclic(db)
    ensures |SkipPatches(h, db, bytes, base, depth, maxSkip)| <= maxSkip
  {
    if maxSkip > 0 {
      SkipPatchesFromFew(h, db, bytes, base, depth, maxSkip, 2, []);
    }
  }

  lemma {:induction false} SkipPatchesFromFew(h: Hash, db: Db, bytes: Bytes, base: ValueId, depth: nat, maxSkip: nat,
                                              distance: nat, found: seq<SkipPatch>)
    requires Acyclic(db) && distance >= 1 && |found| <= maxSkip
    ensures |SkipPatchesFrom(h, db, bytes, base, depth, maxSkip, distance, found)| <= maxSkip
    decreases depth - distance
  {
    hide ApplyPatch, BuildPatch, Ancestor, Mat, Acyclic;
    if distance <= depth && |found| < maxSkip {
      var ancestor := Ancestor(db, base, distance - 1);
      if ancestor.Some? && Mat(h, db, ancestor.value, false).Ok? {
        var patch := BuildPatch(Mat(h, db, ancestor.value, false).value.bytes, bytes);
        if patch != [] {
          SkipPatchesFromFew(h, db, bytes, base, depth, maxSkip, 2 * distance,
                             found + [SkipPatch(ancestor.value, patch, distance)]);
        }
      }
    }
  }

  /** Storing a fresh value, whole or as a delta, adds exactly its bytes to the meaning. */
  lemma StoreKeepsMeaning(h: Hash, db: Db, p: DeltaPolicy, kind: ValueKind, bytes: Bytes, base: Option<ValueId>)
    requires ValidDb(h, db) && |bytes| < U64 && h(bytes) !in db
    ensures var id, e, v := h(bytes), EntryFor(h, db, p, kind, bytes, base), ValueOf(kind, bytes);
      && EntrySound(h, Extend(Meaning(h, db), id, v), id, e)
      && (forall b :: Reads(e, b) ==> b in Meaning(h, db)) && (Chained(e) ==> v.Some?)
  {
    hide ApplyPatch;
    var id, e, m := h(bytes), EntryFor(h, db, p, kind, bytes, base), Meaning(h, db);
    if e != Whole(kind, bytes) {
      MatSound(h, db, m, base.value, false);
      PatchRoundTrip(m[base.value], bytes);
      SkipPatchesOk(h, db, m, bytes, base.value, StoredDepth(db[base.value]) + 1, p.maxSkip);
      DeltaEntrySound(h, m, id, e, bytes);
    }
  }

  lemma DeltasAreCells(h: Hash, db: Db, p: DeltaPolicy, kind: ValueKind, bytes: Bytes, base: Option<ValueId>)
    requires Acyclic(db)
    ensures var e := EntryFor(h, db, p, kind, bytes, base);
      e == Whole(kind, bytes) || (kind == Cell && Chained(e))
    ensures base.None? ==> EntryFor(h, db, p, kind, bytes, base) == Whole(kind, bytes)
  {
    hide Mat, SkipPatches;
  }

  lemma DeltaEntrySound(h: Hash, m: Model, id: ValueId, e: ValueEntry, bytes: Bytes)
    requires id !in m && id == h(bytes)
    requires Chained(e) && e.delta.value.fullLen == |bytes|
    requires e.delta.value.base in m && ApplyPatch(m[e.delta.value.base], e.bytes) == Ok(bytes)
    requires forall s :: s in e.delta.value.skip ==> s.base in m && ApplyPatch(m[s.base], s.patch) == Ok(bytes)
    ensures EntrySound(h, Extend(m, id, Some(bytes)), id, e)
    ensures forall b :: Reads(e, b) ==> b in m
  {
    hide ApplyPatch;
    var m' := Extend(m, id, Some(bytes));
    forall s | s in e.delta.value.skip
      ensures Rebuilds(m', id, s.base, s.patch)
    {
    }
  }

  /******* Stored depth *******/

  /** The depth recorded in a delta is never below its real chain length. */
  ghost predicate DepthsBound(db: Db) {
    forall id, n: nat :: ChainLen(db, id, n) && Chained(db[id]) ==> n <= db[id].delta.value.depth
  }

  lemma {:induction false} ChainLenSurvivesAdd(h: Hash, db: Db, m: Model, id: ValueId, e: ValueEntry, x: ValueId, n: nat)
    requires Sound(h, db, m) && id !in db && x in db && (Chained(db[x]) ==> x in m)
    ensures ChainLen(db[id := e], x, n) <==> ChainLen(db, x, n)
    decreases n
  {
    hide ApplyPatch;
    if n > 0 && Chained(db[x]) {
      assert EntrySound(h, m, x, db[x]);
      ChainLenSurvivesAdd(h, db, m, id, e, db[x].delta.value.base, n - 1);
    }
  }

  /** Where every delta has a value, a new entry of the right depth keeps the recorded depths above the real ones. */
  lemma AddKeepsDepths(h: Hash, db: Db, id: ValueId, e: ValueEntry)
    requires Healthy(h, db) && id !in db
    requires Chained(e) ==> e.delta.value.base in db && e.delta.value.depth == StoredDepth(db[e.delta.value.base]) + 1
    ensures DepthsBound(db[id := e])
  {
    hide EntrySound, Mat;
    var db', m := db[id := e], Meaning(h, db);
    forall x, n: nat | ChainLen(db', x, n) && Chained(db'[x])
      ensures n <= db'[x].delta.value.depth
    {
      if x != id {
        ChainLenSurvivesAdd(h, db, m, id, e, x, n);
      } else {
        var b := e.delta.value.base;
        ChainLenSurvivesAdd(h, db, m, id, e, b, n - 1);
        assert ChainLen(db, b, n - 1);
      }
    }
  }

  /** A store no refused import has touched: in working order, every delta has a value, and recorded depths can be trusted
      as upper bounds. */
  ghost predicate Healthy(h: Hash, db: Db): (b: bool)
    ensures b ==> Acyclic(db)
  {
    ValidDb(h, db) && Complete(h, db) && DepthsBound(db)
  }

  lemma EmptyIsHealthy(h: Hash)
    ensures Healthy(h, map[]) && Meaning(h, map[]) == map[]
  {
    assert Ranked(map[], map[]);
    MeaningIs(h, map[], map[]);
  }

  lemma NobodyWaits(h: Hash, db: Db, id: ValueId)
    requires Acyclic(db) && Complete(h, db)
    ensures Waiting(h, db) == map[] && !Awaited(h, db, id)
  {
    hide Mat;
  }

  lemma StoredIsValid(h: Hash, db: Db, id: ValueId, e: ValueEntry, v: Option<Bytes>)
    requires Acyclic(db) && StoredInto(h, db, id, e, v)
    ensures ValidDb(h, db[id := e])
  {
    hide Mat, Acyclic, Sound;
  }

  /** Any entry that is fit for the store, whole or a delta of the right depth. */
  lemma StoreEntryKeeps(h: Hash, db: Db, id: ValueId, e: ValueEntry, v: Option<Bytes>)
    requires ValidDb(h, db) && id !in db && (v.Some? ==> |v.value| < U64)
    requires EntrySound(h, Extend(Meaning(h, db), id, v), id, e) && (Chained(e) ==> v.Some?)
    requires forall b :: Reads(e, b) ==> b in Meaning(h, db)
    requires Chained(e) ==> e.delta.value.base in db && e.delta.value.depth == StoredDepth(db[e.delta.value.base]) + 1
    ensures StoredInto(h, db, id, e, v)
  {
    hide EntrySound, Mat, Acyclic, Sound, DepthsBound;
    AddEntry(h, db, id, e, v);
    if Healthy(h, db) {
      NobodyWaits(h, db, id);
      AddKeepsDepths(h, db, id, e);
    }
  }

  lemma StoreWholeKeeps(h: Hash, db: Db, kind: ValueKind, id: ValueId, bytes: Bytes)
    requires ValidDb(h, db) && |bytes| < U64 && id !in db
    ensures StoredInto(h, db, id, Whole(kind, bytes), ValueOf(kind, bytes))
  {
    hide Mat, Acyclic, Sound, StoredInto;
    StoreEntryKeeps(h, db, id, Whole(kind, bytes), ValueOf(kind, bytes));
  }

  lemma StoreKeeps(h: Hash, db: Db, p: DeltaPolicy, kind: ValueKind, bytes: Bytes, base: Option<ValueId>)
    requires ValidDb(h, db) && |bytes| < U64 && h(bytes) !in db
    ensures StoredInto(h, db, h(bytes), EntryFor(h, db, p, kind, bytes, base), ValueOf(kind, bytes))
  {
    hide Mat, Acyclic, Sound, StoredInto, SkipPatches;
    StoreKeepsMeaning(h, db, p, kind, bytes, base);
    StoreEntryKeeps(h, db, h(bytes), EntryFor(h, db, p, kind, bytes, base), ValueOf(kind, bytes));
  }

  /******* Compaction *******/

  /** The deltas compaction turns back into whole values. */
  predicate Flagged(p: DeltaPolicy, e: ValueEntry) {
    Chained(e) &&
    ((p.maxChain > 0 && e.delta.value.depth > p.maxChain)
     || (p.snapshotInterval > 0 && e.delta.value.depth % p.snapshotInterval == 0))
  }

  ghost function FlaggedIn(p: DeltaPolicy, db: Db): set<ValueId> {
    set id | id in db && Flagged(p, db[id])
  }

  /** First phase: every flagged delta that materializes becomes a cell. */
  ghost function FlattenedEntry(h: Hash, db: Db, p: DeltaPolicy, id: ValueId): ValueEntry
    requires Acyclic(db) && id in db
  {
    if Flagged(p, db[id]) && Mat(h, db, id, false).Ok?
    then Whole(Cell, Mat(h, db, id, false).value.bytes)
    else db[id]
  }

  /** The store after flattening the entries in `ids`, in any order. */
  ghost function FlattenedOn(h: Hash, db: Db, p: DeltaPolicy, ids: set<ValueId>): (r: Db)
    requires Acyclic(db)
    ensures r.Keys == db.Keys
  {
    map id | id in db :: if id in ids then FlattenedEntry(h, db, p, id) else db[id]
  }

  ghost function Flattened(h: Hash, db: Db, p: DeltaPolicy): Db
    requires Acyclic(db)
  {
    FlattenedOn(h, db, p, db.Keys)
  }

  /** Second phase: every remaining delta gets its exact depth and fresh skip patches. */
  ghost function ReskippedEntry(h: Hash, db: Db, p: DeltaPolicy, id: ValueId): ValueEntry
    requires Acyclic(db) && id in db
  {
    if p.maxSkip > 0 && Chained(db[id]) && Mat(h, db, id, false).Ok? then
      var built, d := Mat(h, db, id, false).value, db[id].delta.value;
      var skip := SkipPatches(h, db, built.bytes, d.base, built.steps, p.maxSkip);
      db[id].(delta := Some(d.(depth := built.steps, skip := skip)))
    else db[id]
  }

  ghost function ReskippedOn(h: Hash, db: Db, p: DeltaPolicy, ids: set<ValueId>): (r: Db)
    requires Acyclic(db)
    ensures r.Keys == db.Keys
  {
    map id | id in db :: if id in ids then ReskippedEntry(h, db, p, id) else db[id]
  }

  ghost function Reskipped(h: Hash, db: Db, p: DeltaPolicy): Db
    requires Acyclic(db)
  {
    ReskippedOn(h, db, p, db.Keys)
  }

  lemma FlattenedSound(h: Hash, db: Db, m: Model, p: DeltaPolicy, ids: set<ValueId>)
    requires Acyclic(db) && Sound(h, db, m)
    ensures Acyclic(FlattenedOn(h, db, p, ids)) && Sound(h, FlattenedOn(h, db, p, ids), m)
  {
    hide ApplyPatch;
    var db' := FlattenedOn(h, db, p, ids);
    forall id | id in db'
      ensures EntrySound(h, m, id, db'[id])
    {
      assert EntrySound(h, m, id, db[id]);
      MatSound(h, db, m, id, false);
    }
    var rank :| Ranked(db, rank);
    assert Ranked(db', rank);
  }

  function WithSkips(e: ValueEntry, depth: nat, skip: seq<SkipPatch>): ValueEntry {
    if e.delta.Some? then e.(delta := Some(e.delta.value.(depth := depth, skip := skip))) else e
  }

  datatype Update = Update(depth: nat, skip: seq<SkipPatch>)

  /** The updates planned for the deltas with values in `ids` are the ones the second phase asks for. */
  ghost predicate PlanFor(h: Hash, db: Db, p: DeltaPolicy, ids: set<ValueId>, updates: map<ValueId, Update>)
    requires Acyclic(db)
  {
    && (forall id :: id in updates <==> id in ids && id in db && Chained(db[id]) && Mat(h, db, id, false).Ok?)
    && (forall id :: id in updates ==>
          ReskippedEntry(h, db, p, id) == WithSkips(db[id], updates[id].depth, updates[id].skip))
  }

  /** `update` is what the second phase asks for at `id`; nothing for an entry that is no delta or has no value. */
  ghost predicate UpdateFor(h: Hash, db: Db, p: DeltaPolicy, id: ValueId, update: Option<Update>)
    requires Acyclic(db) && id in db
  {
    if update.Some?
    then
      && Chained(db[id]) && Mat(h, db, id, false).Ok?
      && ReskippedEntry(h, db, p, id) == WithSkips(db[id], update.value.depth, update.value.skip)
    else !Chained(db[id]) || Mat(h, db, id, false).Err?
  }

  lemma PlanGrows(h: Hash, db: Db, p: DeltaPolicy, ids: set<ValueId>, updates: map<ValueId, Update>,
                  id: ValueId, update: Option<Update>)
    requires Acyclic(db) && id in db && PlanFor(h, db, p, ids, updates) && UpdateFor(h, db, p, id, update)
    ensures PlanFor(h, db, p, ids + {id}, if update.Some? then updates[id := update.value] else updates)
  {
  }

  lemma {:induction false} AncestorRanksLower(db: Db, rank: map<ValueId, nat>, id: ValueId, n: nat, k: nat)
    requires Ranked(db, rank) && ChainLen(db, id, n) && k <= n
    ensures var a := Ancestor(db, id, k); a.Some? && a.value in db && rank[a.value] <= rank[id]
    decreases k
  {
    if k > 0 {
      var base := db[id].delta.value.base;
      assert Reads(db[id], base) && base in db;
      AncestorRanksLower(db, rank, base, n - 1, k - 1);
    }
  }

  lemma SoundEntry(h: Hash, db: Db, m: Model, id: ValueId)
    requires Sound(h, db, m) && id in db
    ensures EntrySound(h, m, id, db[id])
  {
  }

  lemma ReskippedEntrySound(h: Hash, db: Db, m: Model, p: DeltaPolicy, rank: map<ValueId, nat>, id: ValueId)
    requires Acyclic(db) && Sound(h, db, m) && Ranked(db, rank) && id in db
    ensures var e := ReskippedEntry(h, db, p, id);
      EntrySound(h, m, id, e) && forall b :: Reads(e, b) && b in db ==> rank[b] < rank[id]
  {
    hide ApplyPatch, SkipPatches, Mat, Sound;
    SoundEntry(h, db, m, id);
    var e := ReskippedEntry(h, db, p, id);
    if e != db[id] {
      MatSound(h, db, m, id, false);
      PlainStepsAreChainLen(h, db, id);
      var d, n := db[id].delta.value, Mat(h, db, id, false).value.steps;
      SkipPatchesOk(h, db, m, m[id], d.base, n, p.maxSkip);
      assert Reads(db[id], d.base);
      forall s | s in e.delta.value.skip
        ensures Rebuilds(m, id, s.base, s.patch) && s.base in db && rank[s.base] < rank[id]
      {
        assert SkipOk(db, m, m[id], d.base, n, s);
        AncestorRanksLower(db, rank, d.base, n - 1, s.distance - 1);
      }
    }
  }

  lemma ReskippedSound(h: Hash, db: Db, m: Model, p: DeltaPolicy)
    requires Acyclic(db) && Sound(h, db, m)
    ensures Acyclic(Reskipped(h, db, p)) && Sound(h, Reskipped(h, db, p), m)
  {
    hide ApplyPatch;
    var db' := Reskipped(h, db, p);
    var rank :| Ranked(db, rank);
    forall id | id in db'
      ensures EntrySound(h, m, id, db'[id])
      ensures forall b :: b in db' && Reads(db'[id], b) ==> rank[b] < rank[id]
    {
      ReskippedEntrySound(h, db, m, p, rank, id);
    }
    assert Ranked(db', rank);
  }

  ghost function Compacted(h: Hash, db: Db, p: DeltaPolicy): Db
    requires ValidDb(h, db)
  {
    FlattenedSound(h, db, Meaning(h, db), p, db.Keys);
    Reskipped(h, Flattened(h, db, p), p)
  }

  /** Deltas without a value are left as they are. */
  lemma WaitingStay(h: Hash, db: Db, p: DeltaPolicy, id: ValueId)
    requires ValidDb(h, db) && id in db && id !in Meaning(h, db)
    ensures Compacted(h, db, p)[id] == db[id]
  {
    hide ApplyPatch, SkipPatches;
    var m, flat := Meaning(h, db), Flattened(h, db, p);
    FlattenedSound(h, db, m, p, db.Keys);
    MatSound(h, db, m, id, false);
    MatSound(h, flat, m, id, false);
  }

  /** Compaction changes no meaning: every id materializes to the bytes it had, with and without skip patches, and one
      that does not fails as it did. */
  lemma CompactionPreservesMeaning(h: Hash, db: Db, p: DeltaPolicy)
    requires ValidDb(h, db)
    ensures ValidDb(h, Compacted(h, db, p))
    ensures Meaning(h, Compacted(h, db, p)) == Meaning(h, db)
    ensures forall id: ValueId, useSkip: bool ::
      var before, after := Mat(h, db, id, useSkip), Mat(h, Compacted(h, db, p), id, useSkip);
      if before.Ok? then after.Ok? && after.value.bytes == before.value.bytes else after == before
  {
    hide Mat, Sound, SkipPatches, EntrySound, Reskipped, FlattenedOn;
    var m := Meaning(h, db);
    FlattenedSound(h, db, m, p, db.Keys);
    ReskippedSound(h, Flattened(h, db, p), m, p);
    MeaningIs(h, Compacted(h, db, p), m);
    CompactedKeys(h, db, p);
    forall id | id in db && id !in m {
      WaitingStay(h, db, p, id);
    }
    forall id: ValueId, useSkip: bool
      ensures var before, after := Mat(h, db, id, useSkip), Mat(h, Compacted(h, db, p), id, useSkip);
        if before.Ok? then after.Ok? && after.value.bytes == before.value.bytes else after == before
    {
      MatSound(h, db, m, id, useSkip);
      MatSound(h, Compacted(h, db, p), m, id, useSkip);
      if id !in m {
        FaultStays(h, db, Compacted(h, db, p), m, id);
      }
    }
  }

  lemma CompactedKeys(h: Hash, db: Db, p: DeltaPolicy)
    requires ValidDb(h, db)
    ensures Compacted(h, db, p).Keys == db.Keys
  {
    hide Mat, SkipPatches;
    FlattenedSound(h, db, Meaning(h, db), p, db.Keys);
  }

  /******* Depth after compaction *******/

  lemma {:induction false} FlattenShortens(h: Hash, db: Db, p: DeltaPolicy, id: ValueId, n: nat, k: nat)
    requires Acyclic(db) && ChainLen(db, id, n) && ChainLen(Flattened(h, db, p), id, k)
    ensures k <= n
    decreases n
  {
    var db' := Flattened(h, db, p);
    if k > 0 {
      assert db'[id] == db[id];
      FlattenShortens(h, db, p, db[id].delta.value.base, n - 1, k - 1);
    }
  }

  lemma {:induction false} ReskipKeepsChains(h: Hash, db: Db, p: DeltaPolicy, id: ValueId, n: nat)
    requires Acyclic(db)
    ensures ChainLen(Reskipped(h, db, p), id, n) <==> ChainLen(db, id, n)
    decreases n
  {
    if id in db && n > 0 && Chained(db[id]) {
      ReskipKeepsChains(h, db, p, db[id].delta.value.base, n - 1);
    }
  }

  lemma ChainExists(h: Hash, db: Db, id: ValueId)
    requires ValidDb(h, db) && id in Meaning(h, db)
    ensures Mat(h, db, id, false).Ok? && ChainLen(db, id, Mat(h, db, id, false).value.steps)
  {
    MatSound(h, db, Meaning(h, db), id, false);
    PlainStepsAreChainLen(h, db, id);
  }

  lemma FlattenedDepths(h: Hash, db: Db, p: DeltaPolicy, id: ValueId, n: nat)
    requires Healthy(h, db)
    requires ChainLen(Flattened(h, db, p), id, n) && Chained(Flattened(h, db, p)[id])
    ensures n <= Flattened(h, db, p)[id].delta.value.depth
    ensures p.maxChain > 0 ==> Flattened(h, db, p)[id].delta.value.depth <= p.maxChain
  {
    hide Sound;
    var db' := Flattened(h, db, p);
    assert db'[id] == db[id];
    ChainExists(h, db, id);
    FlattenShortens(h, db, p, id, Mat(h, db, id, false).value.steps, n);
  }

  /** Right after compaction of a store no refused import has touched, no real chain is longer than `maxChain`, recorded
      depths still bound the real ones, and they are exact when skip patches were rebuilt. */
  lemma CompactionBoundsDepth(h: Hash, db: Db, p: DeltaPolicy, id: ValueId, n: nat)
    requires Healthy(h, db)
    requires ChainLen(Compacted(h, db, p), id, n) && Chained(Compacted(h, db, p)[id])
    ensures n <= Compacted(h, db, p)[id].delta.value.depth
    ensures p.maxChain > 0 ==> n <= p.maxChain
    ensures p.maxSkip > 0 ==> n == Compacted(h, db, p)[id].delta.value.depth
  {
    hide Sound, DepthsBound;
    var flat := Flattened(h, db, p);
    FlattenedSound(h, db, Meaning(h, db), p, db.Keys);
    MeaningIs(h, flat, Meaning(h, db));
    ReskipKeepsChains(h, flat, p, id, n);
    FlattenedDepths(h, db, p, id, n);
    ChainExists(h, flat, id);
    ChainLenUnique(flat, id, n, Mat(h, flat, id, false).value.steps);
  }

  /** What compaction does to an entry: a delta that has a value and whose recorded depth the policy does not admit becomes a
      cell of that value; every other entry keeps its kind, bytes and base. */
  ghost predicate CompactedAs(h: Hash, db: Db, p: DeltaPolicy, id: ValueId, e: ValueEntry)
    requires Acyclic(db) && id in db
  {
    if Chained(db[id]) && id in Meaning(h, db) && !Admits(p, db[id].delta.value.depth)
    then e == Whole(Cell, Meaning(h, db)[id])
    else SamePlain(db[id], e) && (p.maxSkip == 0 || !Chained(db[id]) || id !in Meaning(h, db) ==> e == db[id])
  }

  lemma CompactedEntry(h: Hash, db: Db, p: DeltaPolicy, id: ValueId)
    requires ValidDb(h, db) && id in db
    ensures id in Compacted(h, db, p) && CompactedAs(h, db, p, id, Compacted(h, db, p)[id])
  {
    hide Mat, Sound, Acyclic, Meaning, FlattenedOn, Reskipped, ReskippedEntry;
    var m, flat := Meaning(h, db), Flattened(h, db, p);
    FlattenedSound(h, db, m, p, db.Keys);
    FlattenedAs(h, db, m, p, id);
    ReskippedAs(h, flat, p, id);
    if id !in m {
      WaitingStay(h, db, p, id);
    }
  }

  lemma FlattenedAs(h: Hash, db: Db, m: Model, p: DeltaPolicy, id: ValueId)
    requires Acyclic(db) && Sound(h, db, m) && id in db
    ensures id in Flattened(h, db, p)
    ensures Flattened(h, db, p)[id] ==
      if Chained(db[id]) && id in m && !Admits(p, db[id].delta.value.depth) then Whole(Cell, m[id]) else db[id]
  {
    hide Mat, Sound, Acyclic;
    MatSound(h, db, m, id, false);
  }

  lemma ReskippedAs(h: Hash, db: Db, p: DeltaPolicy, id: ValueId)
    requires Acyclic(db) && id in db
    ensures id in Reskipped(h, db, p) && SamePlain(db[id], Reskipped(h, db, p)[id])
    ensures p.maxSkip == 0 || !Chained(db[id]) ==> Reskipped(h, db, p)[id] == db[id]
  {
    hide Mat, SkipPatches, Acyclic;
  }

  /** A delta that is left gets its real depth and, up to the limit, every skip patch that can be had. */
  lemma CompactedSkips(h: Hash, db: Db, p: DeltaPolicy, id: ValueId)
    requires ValidDb(h, db) && p.maxSkip > 0 && id in Meaning(h, db) && id in Compacted(h, db, p)
    requires Chained(Compacted(h, db, p)[id])
    ensures var c, d := Compacted(h, db, p), Compacted(h, db, p)[id].delta.value;
      && ChainLen(c, id, d.depth) && |d.skip| <= p.maxSkip
      && Doubling(c, Meaning(h, db), Meaning(h, db)[id], d.base, d.depth, p.maxSkip, d.skip)
  {
    hide Mat, Sound, Acyclic, Meaning, FlattenedOn, SkipPatches, Ancestor, Pow2;
    var m, flat := Meaning(h, db), Flattened(h, db, p);
    FlattenedSound(h, db, m, p, db.Keys);
    MatSound(h, flat, m, id, false);
    PlainStepsAreChainLen(h, flat, id);
    var d := Compacted(h, db, p)[id].delta.value;
    ReskipKeepsChains(h, flat, p, id, d.depth);
    SkipPatchesFew(h, flat, m[id], d.base, d.depth, p.maxSkip);
    SkipPatchesDouble(h, flat, m, m[id], d.base, d.depth, p.maxSkip);
    SameAncestors(h, flat, p, d.base, Pow2(|d.skip| + 1) - 1);
  }

  lemma {:induction false} SameAncestors(h: Hash, db: Db, p: DeltaPolicy, id: ValueId, k: nat)
    requires Acyclic(db)
    ensures Ancestor(Reskipped(h, db, p), id, k) == Ancestor(db, id, k)
    decreases k
  {
    hide Mat, Acyclic, SkipPatches;
    if k > 0 && id in db && db[id].delta.Some? {
      SameAncestors(h, db, p, db[id].delta.value.base, k - 1);
    }
  }

  /** The ids whose kind is another than before. */
  function ChangedKinds(db: Db, later: Db): set<ValueId> {
    set id | id in db && id in later && later[id].kind != db[id].kind
  }

  /** The ids whose kind compaction changes are those of the deltas it dissolves. */
  lemma DissolvedAreChanged(h: Hash, db: Db, p: DeltaPolicy)
    requires ValidDb(h, db)
    ensures FlaggedIn(p, db) * Meaning(h, db).Keys == ChangedKinds(db, Compacted(h, db, p))
  {
    hide Mat, SkipPatches, Compacted, Sound, Acyclic, Meaning;
    forall id | id in db
      ensures id in Compacted(h, db, p)
      ensures Compacted(h, db, p)[id].kind != db[id].kind <==> id in FlaggedIn(p, db) && id in Meaning(h, db)
    {
      CompactedEntry(h, db, p, id);
    }
  }

  /** From `id`, `n` base links through deltas that compaction leaves alone reach a value it holds whole or makes whole. */
  ghost predicate LinksLeft(h: Hash, db: Db, p: DeltaPolicy, id: ValueId, n: nat)
    requires Acyclic(db)
    decreases n
  {
    id in db &&
    if db[id].kind != Delta || (Chained(db[id]) && !Admits(p, db[id].delta.value.depth) && id in Meaning(h, db)) then n == 0
    else Chained(db[id]) && n > 0 && LinksLeft(h, db, p, db[id].delta.value.base, n - 1)
  }

  /** The chains compaction leaves, in any store in working order: one is as long as the policy admits deltas in a row by
      their recorded depths, and so longer than `maxChain` where these are too small. */
  lemma {:induction false} CompactedChainIff(h: Hash, db: Db, p: DeltaPolicy, id: ValueId, n: nat)
    requires ValidDb(h, db)
    ensures ChainLen(Compacted(h, db, p), id, n) <==> LinksLeft(h, db, p, id, n)
    decreases n
  {
    hide Mat, Sound, Acyclic, Reskipped;
    FlattenedSound(h, db, Meaning(h, db), p, db.Keys);
    ReskipKeepsChains(h, Flattened(h, db, p), p, id, n);
    FlattenedChainIff(h, db, p, id, n);
  }

  lemma {:induction false} FlattenedChainIff(h: Hash, db: Db, p: DeltaPolicy, id: ValueId, n: nat)
    requires Acyclic(db)
    ensures ChainLen(Flattened(h, db, p), id, n) <==> LinksLeft(h, db, p, id, n)
    decreases n
  {
    hide Mat, Acyclic;
    if id in db && Chained(db[id]) && n > 0 {
      FlattenedChainIff(h, db, p, db[id].delta.value.base, n - 1);
    }
  }

  lemma CompactionKeepsDepths(h: Hash, db: Db, p: DeltaPolicy)
    requires Healthy(h, db)
    ensures DepthsBound(Compacted(h, db, p))
  {
    hide Compacted, Sound, Mat, Complete;
    forall id, n: nat | ChainLen(Compacted(h, db, p), id, n) && Chained(Compacted(h, db, p)[id])
      ensures n <= Compacted(h, db, p)[id].delta.value.depth
    {
      CompactionBoundsDepth(h, db, p, id, n);
    }
  }

  lemma CompactionKeepsComplete(h: Hash, db: Db, p: DeltaPolicy)
    requires ValidDb(h, db) && Complete(h, db)
    ensures Acyclic(Compacted(h, db, p)) && Complete(h, Compacted(h, db, p))
  {
    hide Mat, Sound, SkipPatches;
    CompactionPreservesMeaning(h, db, p);
    FlattenedSound(h, db, Meaning(h, db), p, db.Keys);
  }

  lemma CompactKeeps(h: Hash, db: Db, p: DeltaPolicy)
    requires ValidDb(h, db)
    ensures ValidDb(h, Compacted(h, db, p)) && Meaning(h, Compacted(h, db, p)) == Meaning(h, db)
    ensures Healthy(h, db) ==> Healthy(h, Compacted(h, db, p))
    ensures Healthy(h, db) && p.maxChain > 0 ==>
      forall id, n: nat :: ChainLen(Compacted(h, db, p), id, n) ==> n <= p.maxChain
  {
    hide Compacted, DepthsBound, Complete, Sound;
    CompactionPreservesMeaning(h, db, p);
    if Healthy(h, db) {
      CompactionKeepsDepths(h, db, p);
      CompactionKeepsComplete(h, db, p);
      var db' := Compacted(h, db, p);
      forall id, n: nat | ChainLen(db', id, n) && p.maxChain > 0
        ensures n <= p.maxChain
      {
        if Chained(db'[id]) {
          CompactionBoundsDepth(h, db, p, id, n);
        }
      }
    }
  }

  lemma FlattenedIsValid(h: Hash, db: Db, p: DeltaPolicy)
    requires ValidDb(h, db)
    ensures Acyclic(db) && ValidDb(h, Flattened(h, db, p)) && Meaning(h, Flattened(h, db, p)) == Meaning(h, db)
    ensures Acyclic(Flattened(h, db, p)) && Compacted(h, db, p) == Reskipped(h, Flattened(h, db, p), p)
  {
    hide Mat, Sound, Reskipped;
    FlattenedSound(h, db, Meaning(h, db), p, db.Keys);
    MeaningIs(h, Flattened(h, db, p), Meaning(h, db));
  }

  lemma NothingReskipped(h: Hash, db: Db, p: DeltaPolicy)
    requires Acyclic(db) && p.maxSkip == 0
    ensures Reskipped(h, db, p) == db
  {
    hide Mat;
  }

  /** Flattening only the flagged entries is flattening all of them. */
  lemma OnlyFlaggedChange(h: Hash, db: Db, p: DeltaPolicy, flagged: set<ValueId>)
    requires Acyclic(db)
    requires forall id :: id in db && Flagged(p, db[id]) ==> id in flagged
    ensures FlattenedOn(h, db, p, flagged) == Flattened(h, db, p)
  {
  }

  lemma FlattenOneMore(h: Hash, db: Db, p: DeltaPolicy, ids: set<ValueId>, id: ValueId)
    requires Acyclic(db) && id in db
    ensures FlattenedOn(h, db, p, ids + {id}) == FlattenedOn(h, db, p, ids)[id := FlattenedEntry(h, db, p, id)]
  {
  }

  lemma FlattenNone(h: Hash, db: Db, p: DeltaPolicy)
    requires Acyclic(db)
    ensures FlattenedOn(h, db, p, {}) == db && ReskippedOn(h, db, p, {}) == db
  {
  }

  /** An entry without a value is left as it is. */
  lemma FlattenNothing(h: Hash, db: Db, p: DeltaPolicy, ids: set<ValueId>, id: ValueId)
    requires Acyclic(db) && id in db && Mat(h, db, id, false).Err?
    ensures FlattenedOn(h, db, p, ids + {id}) == FlattenedOn(h, db, p, ids)
  {
  }

  lemma OneMoreIn(done: set<ValueId>, id: ValueId, ids: set<ValueId>)
    requires id !in done
    ensures |(done + {id}) * ids| == |done * ids| + if id in ids then 1 else 0
  {
    assert (done + {id}) * ids == done * ids + if id in ids then {id} else {};
  }

  /** A delta that rebuilds has a chain, and the steps taken are its length. */
  lemma DepthOfRebuilt(h: Hash, db: Db, id: ValueId)
    requires Acyclic(db)
    ensures Mat(h, db, id, false).Ok? ==> Links(db, id) == Some(Mat(h, db, id, false).value.steps)
  {
    hide Mat, Links, Acyclic;
    if Mat(h, db, id, false).Ok? {
      PlainStepsAreChainLen(h, db, id);
      LinksIsChainLen(db, id, Mat(h, db, id, false).value.steps);
    }
  }

  lemma ReskipOneMore(h: Hash, db: Db, p: DeltaPolicy, ids: set<ValueId>, id: ValueId)
    requires Acyclic(db) && id in db
    ensures ReskippedOn(h, db, p, ids + {id}) == ReskippedOn(h, db, p, ids)[id := ReskippedEntry(h, db, p, id)]
  {
  }

  /** Applying a complete plan is the whole second phase. */
  lemma PlanCovers(h: Hash, db: Db, p: DeltaPolicy, updates: map<ValueId, Update>)
    requires Acyclic(db) && PlanFor(h, db, p, db.Keys, updates)
    ensures ReskippedOn(h, db, p, updates.Keys) == Reskipped(h, db, p)
  {
  }

  /** A flagged delta rebuilds to the same bytes, or fails, while some of the others have been rewritten already. */
  lemma FlaggedMaterializes(h: Hash, db: Db, m: Model, p: DeltaPolicy, ids: set<ValueId>, id: ValueId)
    requires Acyclic(db) && Sound(h, db, m) && id in db
    requires Acyclic(FlattenedOn(h, db, p, ids)) && Sound(h, FlattenedOn(h, db, p, ids), m)
    ensures Mat(h, db, id, false).Ok? <==> id in m
    ensures Mat(h, FlattenedOn(h, db, p, ids), id, false).Ok? <==> id in m
    ensures id in m ==>
      Mat(h, FlattenedOn(h, db, p, ids), id, false).value.bytes == Mat(h, db, id, false).value.bytes
  {
    hide Mat, Sound, FlattenedOn;
    MatSound(h, db, m, id, false);
    MatSound(h, FlattenedOn(h, db, p, ids), m, id, false);
  }
}

/** The in-memory value store: a hash index over appended entries, shadowed by a learned index and a Bloom filter. */
module ValueStore {
  import opened Wrappers
  import opened Codec
  import opened Patch
  import opened ValueGraph
  import opened Compaction
  import opened Import
  import opened PartialStore
  import Bloom
  import L = LearnedIndex

  datatype LookupTrace = LookupTrace(probes: nat, usedLearned: bool, usedFallback: bool)

  datatype Config = Config(enableLearned: bool, segmentSize: nat, minSamples: nat, maxInserts: nat, policy: DeltaPolicy)

  /** What has been rebuilt so far in one materialization. */
  type Cache = map<ValueId, Built>

  ghost predicate CacheOk(h: Hash, db: Db, useSkip: bool, cache: Cache)
    requires Acyclic(db)
  {
    forall id :: id in cache ==> Mat(h, db, id, useSkip) == Ok(cache[id])
  }

  /** `key` inserted before the first larger id of a sorted list. */
  function InsertSorted(keys: seq<ValueId>, key: ValueId): seq<ValueId> {
    if keys == [] || FromBe(key) < FromBe(keys[0]) then [key] + keys
    else [keys[0]] + InsertSorted(keys[1..], key)
  }

  lemma {:induction false} FromBeInjective(a: Bytes, b: Bytes)
    requires |a| == |b| && FromBe(a) == FromBe(b)
    ensures a == b
    decreases |a|
  {
    if a != [] {
      var n := |a| - 1;
      FromBeInjective(a[..n], b[..n]);
      assert a == a[..n] + [a[n]] && b == b[..n] + [b[n]];
    }
  }

  lemma {:induction false} InsertedKeys(keys: seq<ValueId>, key: ValueId)
    ensures forall x :: x in InsertSorted(keys, key) <==> x in keys || x == key
  {
    if keys != [] && FromBe(key) >= FromBe(keys[0]) {
      InsertedKeys(keys[1..], key);
      assert keys == [keys[0]] + keys[1..];
    }
  }

  lemma PrependSorted(first: ValueId, rest: seq<ValueId>)
    requires L.StrictlySorted(rest) && forall x :: x in rest ==> FromBe(first) < FromBe(x)
    ensures L.StrictlySorted([first] + rest)
  {
  }

  lemma {:induction false} InsertSortedOk(keys: seq<ValueId>, key: ValueId)
    requires L.StrictlySorted(keys) && key !in keys
    ensures L.StrictlySorted(InsertSorted(keys, key))
  {
    if keys == [] || FromBe(key) < FromBe(keys[0]) {
      PrependSorted(key, keys);
    } else {
      if FromBe(key) == FromBe(keys[0]) {
        FromBeInjective(key, keys[0]);
      }
      var rest := keys[1..];
      assert forall x :: x in rest ==> x in keys && FromBe(keys[0]) < FromBe(x);
      InsertSortedOk(rest, key);
      InsertedKeys(rest, key);
      PrependSorted(keys[0], InsertSorted(rest, key));
    }
  }

  lemma NothingLeft<T>(all: set<T>, done: set<T>)
    requires done <= all && all - done == {}
    ensures done == all
  {
    assert all == done + (all - done);
  }

  lemma ImportAccepted(h: Hash, before: Db, es: Incoming)
    requires ValidDb(h, before) && BoundedEntries(es)
    ensures Acyclic(before)
    ensures Acceptable(h, Merge(before, es)) ==> var after := Normalized(Merge(before, es));
      && Healthy(h, after) && Acyclic(after) && ValidDb(h, after) && Meaning(h, after).Keys == after.Keys
      && Within(Meaning(h, before), Meaning(h, after))
  {
    hide Mat, Acceptable, Normalized, Sound, Acyclic;
    ImportKeeps(h, before, es);
  }

  method SortIds(ids: set<ValueId>) returns (keys: seq<ValueId>)
    ensures L.StrictlySorted(keys)
    ensures forall id :: id in keys <==> id in ids
  {
    hide InsertSorted, FromBe;
    keys := [];
    var todo := ids;
    while todo != {}
      invariant todo <= ids
      invariant L.StrictlySorted(keys)
      invariant forall id :: id in keys <==> id in ids && id !in todo
      decreases |todo|
    {
      var id :| id in todo;
      todo := todo - {id};
      InsertSortedOk(keys, id);
      InsertedKeys(keys, id);
      keys := InsertSorted(keys, id);
    }
  }

  class ValueStore {
    const h: Hash
    const config: Config
    var policy: DeltaPolicy
    var entries: seq<ValueEntry>
    var entryIds: seq<ValueId>
    var index: map<ValueId, nat>
    var sortedKeys: seq<ValueId>
    var sortedEntries: seq<nat>
    var learned: Option<L.Model>
    var insertsSinceRefresh: nat
    const bloom: Bloom.BloomFilter

    /** The index is a bijection between the ids and the positions of the entries. */
    ghost predicate Shape()
      reads this`entries, this`entryIds, this`index
    {
      && |entries| == |entryIds|
      && (forall i :: 0 <= i < |entryIds| ==> entryIds[i] in index && index[entryIds[i]] == i)
      && (forall id :: id in index ==> index[id] < |entryIds| && entryIds[index[id]] == id)
    }

    /** The shadows never contradict the index; the sorted arrays may miss entries added since they were built. */
    ghost predicate ShadowsOk()
      reads this`index, this`sortedKeys, this`sortedEntries, bloom
    {
      && |sortedKeys| == |sortedEntries|
      && L.StrictlySorted(sortedKeys)
      && (forall i :: 0 <= i < |sortedKeys| ==> sortedKeys[i] in index && sortedEntries[i] == index[sortedKeys[i]])
      && bloom.Valid()
      && (forall id :: id in index ==> Bloom.Admits(bloom.bits, id))
    }

    ghost function Db(): (db: Db)
      reads this`entries, this`entryIds, this`index
      requires Shape()
      ensures db.Keys == index.Keys
    {
      map id | id in index :: entries[index[id]]
    }

    ghost predicate Valid()
      reads this`entries, this`entryIds, this`index, this`sortedKeys, this`sortedEntries, bloom
    {
      Shape() && ShadowsOk() && ValidDb(h, Db())
    }

    /** What every operation keeps in whatever state the store is. */
    ghost predicate Intact()
      reads this`entries, this`entryIds, this`index, this`sortedKeys, this`sortedEntries, bloom
    {
      Shape() && ShadowsOk()
    }

    /** The bytes each stored id stands for. */
    ghost function Contents(): Model
      reads this`entries, this`entryIds, this`index
      requires Shape() && Acyclic(Db())
    {
      Meaning(h, Db())
    }

    constructor (h: Hash, config: Config)
      ensures Valid() && Healthy(h, Db()) && Db() == map[] && Contents() == map[]
      ensures this.h == h && this.config == config && policy == config.policy && learned == None && fresh(bloom)
    {
      this.h := h;
      this.config := config;
      policy := config.policy;
      entries, entryIds, index := [], [], map[];
      sortedKeys, sortedEntries, learned := [], [], None;
      insertsSinceRefresh := 0;
      bloom := new Bloom.BloomFilter(1024);
      new;
      EmptyIsHealthy(h);
    }

    method SetDeltaPolicy(policy: DeltaPolicy)
      modifies this`policy
      ensures this.policy == policy
    {
      this.policy := policy;
    }

    function EntryById(id: ValueId): (e: Option<ValueEntry>)
      reads this`entries, this`entryIds, this`index
      requires Shape()
      ensures e == if id in Db() then Some(Db()[id]) else None
    {
      if id in index then Some(entries[index[id]]) else None
    }

    /******* Rebuilding values *******/

    /** Rebuilding `id` reads only entries of `part`, or finds nothing. */
    ghost predicate Reaches(part: Db, id: ValueId)
      reads this`entries, this`entryIds, this`index
      requires Shape()
    {
      IsPart(part, Db()) && (id in part || id !in Db())
    }

    /** The memoised recursion. It ends whenever the part of the store it reads is well founded. */
    method MaterializeWithCache(id: ValueId, useSkip: bool, cache: Cache, ghost part: Db)
      returns (r: Outcome<Built>, cache': Cache)
      requires Shape() && Reaches(part, id) && Acyclic(part) && CacheOk(h, part, useSkip, cache)
      ensures CacheOk(h, part, useSkip, cache')
      ensures r == Mat(h, part, id, useSkip)
      decreases RankOf(part, id)
    {
      hide Acyclic, Rebuild, Candidates, Fewer;
      cache' := cache;
      if id in cache {
        return Ok(cache[id]), cache';
      }
      var found := EntryById(id);
      if found.None? {
        return Err(NotFound), cache';
      }
      var e := found.value;
      var built;
      if e.kind != Delta {
        built := Built(e.bytes, 0, false);
      } else if e.delta.None? {
        return Err(InvalidDelta), cache';
      } else {
        var cs := Candidates(e, useSkip);
        var best: Option<Built> := None;
        for i := 0 to |cs|
          invariant CacheOk(h, part, useSkip, cache')
          invariant BestOf(h, part, id, cs, None, useSkip) == BestOf(h, part, id, cs[i..], best, useSkip)
        {
          var c := cs[i];
          RankDrops(part, id, c.base);
          var base;
          base, cache' := MaterializeWithCache(c.base, useSkip, cache', part);
          if base.Err? {
            return Err(base.error), cache';
          }
          var value := Rebuild(e, base.value, c);
          if value.Err? {
            return Err(value.error), cache';
          }
          best := Fewer(best, value.value);
          assert cs[i..][1..] == cs[i + 1..];
        }
        if best.None? || h(best.value.bytes) != id {
          return Err(InvalidDelta), cache';
        }
        built := best.value;
      }
      cache' := cache'[id := built];
      return Ok(built), cache';
    }

    method MaterializeInternal(id: ValueId, useSkip: bool) returns (r: Outcome<Built>)
      requires Shape() && Acyclic(Db())
      ensures r == Mat(h, Db(), id, useSkip)
    {
      WholeIsPart(Db());
      var cache;
      r, cache := MaterializeWithCache(id, useSkip, map[], Db());
    }

    /** Rebuilding ends and returns exactly the bytes the id stands for, or what is wrong with it, in any part of the store
        in working order. */
    method Materialize(id: ValueId, ghost part: Db) returns (r: Outcome<Bytes>)
      requires Shape() && Reaches(part, id) && ValidDb(h, part)
      ensures r == if id in Meaning(h, part) then Ok(Meaning(h, part)[id])
                   else Err(Fault(h, part, Meaning(h, part), id))
    {
      MatSound(h, part, Meaning(h, part), id, true);
      var built, cache := MaterializeWithCache(id, true, map[], part);
      if built.Err? {
        return Err(built.error);
      }
      return Ok(built.value.bytes);
    }

    /** With the trace: the steps taken never exceed the real length of the delta chain, and fall short of it exactly when
        a skip patch is said to be used. */
    method MaterializeWithTrace(id: ValueId, ghost part: Db) returns (r: Outcome<Built>)
      requires Shape() && Reaches(part, id) && ValidDb(h, part)
      ensures r.Ok? <==> id in Meaning(h, part)
      ensures if r.Ok? then r.value.bytes == Meaning(h, part)[id] else r.error == Fault(h, part, Meaning(h, part), id)
      ensures forall n: nat :: r.Ok? && ChainLen(part, id, n) ==>
        r.value.steps <= n && (r.value.usedSkip <==> r.value.steps < n)
    {
      MatSound(h, part, Meaning(h, part), id, true);
      var cache;
      r, cache := MaterializeWithCache(id, true, map[], part);
      forall n: nat | r.Ok? && ChainLen(part, id, n)
        ensures r.value.steps <= n && (r.value.usedSkip <==> r.value.steps < n)
      {
        SkipsSaveSteps(h, part, id, n);
      }
    }

    /** The real chain length, or nothing when a link leads nowhere. */
    method DeltaChainDepth(id: ValueId, ghost part: Db) returns (r: Option<nat>)
      requires Shape() && Reaches(part, id) && Acyclic(part)
      ensures r == Links(part, id)
    {
      hide Acyclic, Shape, Db, IsPart;
      var current, depth := id, 0;
      while true
        invariant Reaches(part, current) && Links(part, id) == Plus(depth, Links(part, current))
        decreases RankOf(part, current)
      {
        InPart(part, Db(), current);
        var found := EntryById(current);
        if found.None? {
          return None;
        }
        if found.value.kind != Delta {
          return Some(depth);
        }
        if found.value.delta.None? {
          return None;
        }
        RankDrops(part, current, found.value.delta.value.base);
        depth := depth + 1;
        current := found.value.delta.value.base;
      }
    }

    method AncestorAtDistance(start: ValueId, steps: nat) returns (r: Option<ValueId>)
      requires Shape()
      ensures r == Ancestor(Db(), start, steps)
    {
      var current, left := start, steps;
      while left > 0
        invariant Ancestor(Db(), start, steps) == Ancestor(Db(), current, left)
      {
        var found := EntryById(current);
        if found.None? || found.value.delta.None? {
          return None;
        }
        current := found.value.delta.value.base;
        left := left - 1;
      }
      return Some(current);
    }

    method BuildSkipPatches(bytes: Bytes, base: ValueId, depth: nat, maxSkip: nat) returns (skip: seq<SkipPatch>)
      requires Shape() && Acyclic(Db())
      ensures skip == SkipPatchesFrom(h, Db(), bytes, base, depth, maxSkip, 2, [])
    {
      hide Mat, BuildPatch, Ancestor, Acyclic;
      skip := [];
      var distance := 2;
      while distance <= depth && |skip| < maxSkip
        invariant distance >= 2
        invariant SkipPatchesFrom(h, Db(), bytes, base, depth, maxSkip, 2, [])
               == SkipPatchesFrom(h, Db(), bytes, base, depth, maxSkip, distance, skip)
        decreases depth - distance
      {
        var ancestor := AncestorAtDistance(base, distance - 1);
        if ancestor.None? {
          return;
        }
        var from := MaterializeInternal(ancestor.value, false);
        if from.Err? {
          return;
        }
        var patch := BuildPatchBytes(from.value.bytes, bytes);
        if patch == [] {
          return;
        }
        skip := skip + [SkipPatch(ancestor.value, patch, distance)];
        distance := 2 * distance;
      }
    }

    /******* Storing values *******/

    /** Appends an entry under an id that is not stored yet and records it in the index and the Bloom filter. */
    method AppendEntry(id: ValueId, e: ValueEntry)
      requires Shape() && ShadowsOk() && id !in index
      modifies this`entries, this`entryIds, this`index, bloom
      ensures Shape() && ShadowsOk()
      ensures Db() == old(Db())[id := e]
      ensures entryIds == old(entryIds) + [id]
    {
      hide Bloom.Admits, L.StrictlySorted;
      var idx := |entries|;
      entryIds := entryIds + [id];
      entries := entries + [e];
      index := index[id := idx];
      bloom.Insert(id);
      assert Db() == old(Db())[id := e];
    }

    /** Storing works in any state of the store; one in working order stays so. */
    method Put(kind: ValueKind, bytes: Bytes) returns (id: ValueId)
      requires Shape() && ShadowsOk() && |bytes| < U64
      modifies this, bloom
      ensures Shape() && ShadowsOk() && policy == old(policy)
      ensures id == h(bytes)
      ensures Db() == if id in old(Db()) then old(Db()) else old(Db())[id := Whole(kind, bytes)]
      ensures old(Valid()) ==> Valid()
      ensures old(Valid()) && id !in old(Db()) ==>
        StoredInto(h, old(Db()), id, Whole(kind, bytes), ValueOf(kind, bytes))
    {
      id := h(bytes);
      PutWithId(kind, id, bytes);
    }

    /** Stores bytes under an id chosen by the caller; the first bytes stored under an id win. */
    method PutWithId(kind: ValueKind, id: ValueId, bytes: Bytes)
      requires Shape() && ShadowsOk() && |bytes| < U64
      modifies this, bloom
      ensures Shape() && ShadowsOk() && policy == old(policy)
      ensures Db() == if id in old(Db()) then old(Db()) else old(Db())[id := Whole(kind, bytes)]
      ensures old(Valid()) ==> Valid()
      ensures old(Valid()) && id !in old(Db()) ==>
        StoredInto(h, old(Db()), id, Whole(kind, bytes), ValueOf(kind, bytes))
    {
      hide *;
      ValidIs();
      if EntryById(id).Some? {
        return;
      }
      if Valid() {
        StoreWholeKeeps(h, Db(), kind, id, bytes);
        StoredIsValid(h, Db(), id, Whole(kind, bytes), ValueOf(kind, bytes));
      }
      AppendEntry(id, Whole(kind, bytes));
      insertsSinceRefresh := insertsSinceRefresh + 1;
      MaybeRefresh();
      ValidIs();
    }

    /** What `PutWithDelta` stores. Without a base nothing is rebuilt, whatever state the store is in. */
    ghost function DeltaOrWhole(kind: ValueKind, bytes: Bytes, base: Option<ValueId>): ValueEntry
      reads this`entries, this`entryIds, this`index, this`policy
      requires Shape() && (base.Some? ==> Acyclic(Db()))
    {
      if base.None? then Whole(kind, bytes) else EntryFor(h, Db(), policy, kind, bytes, base)
    }

    /** Stores a cell as a patch against `base` when the policy finds that worthwhile, and whole otherwise. */
    method PutWithDelta(kind: ValueKind, bytes: Bytes, base: Option<ValueId>) returns (id: ValueId)
      requires Shape() && ShadowsOk() && |bytes| < U64 && (base.Some? ==> Acyclic(Db()))
      modifies this, bloom
      ensures Shape() && ShadowsOk() && policy == old(policy)
      ensures id == h(bytes)
      ensures Db() == if id in old(Db()) then old(Db()) else old(Db())[id := old(DeltaOrWhole(kind, bytes, base))]
      ensures old(Valid()) ==> Valid()
      ensures old(Valid()) && id !in old(Db()) ==>
        StoredInto(h, old(Db()), id, Db()[id], ValueOf(kind, bytes)) && (Db()[id] == Whole(kind, bytes) || kind == Cell)
      ensures id !in old(Db()) && policy.maxChain > 0 && Chained(Db()[id])
              ==> Db()[id].delta.value.depth <= policy.maxChain
      ensures id !in old(Db()) && (!policy.enabled || base.None? || kind != Cell) ==> Db()[id] == Whole(kind, bytes)
      ensures id !in old(Db()) && base.Some? ==> StoredAs(h, old(Db()), policy, kind, bytes, base, Db()[id])
    {
      hide *;
      ValidIs();
      id := h(bytes);
      if EntryById(id).Some? {
        return;
      }
      ghost var before := Db();
      DeltaOrWholeIs(kind, bytes, base);
      if base.Some? {
        EntryIsStoredAs(h, before, policy, kind, bytes, base);
      }
      if Valid() {
        StoreKeeps(h, before, policy, kind, bytes, base);
        StoredIsValid(h, before, id, EntryFor(h, before, policy, kind, bytes, base), ValueOf(kind, bytes));
        DeltasAreCells(h, before, policy, kind, bytes, base);
      }
      var e := ChooseEntry(kind, bytes, base);
      if e == Whole(kind, bytes) {
        id := Put(kind, bytes);
        return;
      }
      AppendEntry(id, e);
      insertsSinceRefresh := insertsSinceRefresh + 1;
      MaybeRefresh();
      ValidIs();
    }

    lemma DeltaOrWholeIs(kind: ValueKind, bytes: Bytes, base: Option<ValueId>)
      requires Shape() && (base.Some? ==> Acyclic(Db()))
      ensures base.None? ==> DeltaOrWhole(kind, bytes, base) == Whole(kind, bytes)
      ensures base.Some? ==> DeltaOrWhole(kind, bytes, base) == EntryFor(h, Db(), policy, kind, bytes, base)
      ensures Whole(kind, bytes).delta == None
    {
      hide EntryFor, Shape;
    }

    /** The delta entry for `bytes` against `base`, or the whole value at the first check that rules a delta out. */
    method ChooseEntry(kind: ValueKind, bytes: Bytes, base: Option<ValueId>) returns (e: ValueEntry)
      requires Shape() && (base.Some? ==> Acyclic(Db()))
      ensures e == DeltaOrWhole(kind, bytes, base)
      ensures policy.maxChain > 0 && Chained(e) ==> e.delta.value.depth <= policy.maxChain
    {
      hide Acyclic, Mat, SkipPatchesFrom, BuildPatch;
      if !policy.enabled || base.None? || kind != Cell {
        return Whole(kind, bytes);
      }
      var baseEntry := EntryById(base.value);
      if baseEntry.None? {
        return Whole(kind, bytes);
      }
      var from := MaterializeInternal(base.value, false);
      var depth := StoredDepth(baseEntry.value) + 1;
      if from.Err? || Refuses(policy, |bytes|, depth) {
        return Whole(kind, bytes);
      }
      var patch := BuildPatchBytes(from.value.bytes, bytes);
      if patch == [] || |patch| > policy.minAllowed(|bytes|) {
        return Whole(kind, bytes);
      }
      var skip := [];
      if policy.maxSkip > 0 {
        skip := BuildSkipPatches(bytes, base.value, depth, policy.maxSkip);
      }
      e := ValueEntry(Delta, patch, Some(DeltaEntry(base.value, |bytes|, depth, skip)));
    }

    /******* Compaction *******/

    method SetEntry(id: ValueId, e: ValueEntry)
      requires Shape() && id in index
      modifies this`entries
      ensures Shape() && Db() == old(Db())[id := e]
    {
      entries := entries[index[id] := e];
      assert Db() == old(Db())[id := e];
    }

    /** Collects, in whatever order the index enumerates them, the deltas the policy wants rewritten. */
    method FindFlagged() returns (flagged: set<ValueId>)
      requires Shape()
      ensures flagged == FlaggedIn(policy, Db())
    {
      flagged := {};
      var todo := index.Keys;
      while todo != {}
        invariant todo <= index.Keys
        invariant flagged == set id | id in Db() && id !in todo && Flagged(policy, Db()[id])
        decreases |todo|
      {
        var id :| id in todo;
        todo := todo - {id};
        if Flagged(policy, entries[index[id]]) {
          flagged := flagged + {id};
        }
      }
    }

    /** Turns one flagged delta of the store `db` into a cell if it rebuilds, when those in `done` have been tried. */
    method FlattenOne(id: ValueId, ghost db: Db, ghost done: set<ValueId>) returns (rewritten: bool)
      requires Shape() && ValidDb(h, db) && id in db && Flagged(policy, db[id])
      requires Db() == FlattenedOn(h, db, policy, done)
      modifies this`entries
      ensures Shape() && Db() == FlattenedOn(h, db, policy, done + {id})
      ensures rewritten <==> id in Meaning(h, db)
    {
      hide Acyclic, Mat, Sound, Meaning, FlattenedOn, Shape, Db;
      FlattenedSound(h, db, Meaning(h, db), policy, done);
      FlaggedMaterializes(h, db, Meaning(h, db), policy, done, id);
      FlattenOneMore(h, db, policy, done, id);
      var built := MaterializeInternal(id, false);
      rewritten := built.Ok?;
      if rewritten {
        SetEntry(id, Whole(Cell, built.value.bytes));
      } else {
        FlattenNothing(h, db, policy, done, id);
      }
    }

    /** Turns the flagged deltas that rebuild into cells one by one, although others may still use them as bases. */
    method Flatten(flagged: set<ValueId>) returns (rewritten: nat)
      requires Shape() && ValidDb(h, Db()) && flagged == FlaggedIn(policy, Db())
      modifies this`entries
      ensures Shape() && Db() == Flattened(h, old(Db()), policy)
      ensures rewritten == |flagged * old(Contents()).Keys|
    {
      hide ValidDb, Mat, FlattenedOn, Shape, Db, Acyclic, Flagged, Meaning;
      ghost var db, m := Db(), Contents();
      FlattenNone(h, db, policy);
      var done := {};
      rewritten := 0;
      while flagged - done != {}
        invariant Shape() && done <= flagged
        invariant Db() == FlattenedOn(h, db, policy, done)
        invariant rewritten == |done * m.Keys|
        decreases flagged - done
      {
        var id :| id in flagged - done;
        var one := FlattenOne(id, db, done);
        OneMoreIn(done, id, m.Keys);
        if one {
          rewritten := rewritten + 1;
        }
        done := done + {id};
      }
      NothingLeft(flagged, done);
      OnlyFlaggedChange(h, db, policy, flagged);
    }

    /** The exact depth and fresh skip patches of a delta, unless it has no chain or does not rebuild. */
    method PlanOne(id: ValueId) returns (update: Option<Update>)
      requires Shape() && ValidDb(h, Db()) && policy.maxSkip > 0 && id in Db()
      ensures UpdateFor(h, Db(), policy, id, update)
    {
      hide Acyclic, Mat, Sound, Meaning, SkipPatchesFrom, ChainLen, Shape, Db;
      var e := EntryById(id).value;
      if !Chained(e) {
        return None;
      }
      DepthOfRebuilt(h, Db(), id);
      WholeIsPart(Db());
      var depth := DeltaChainDepth(id, Db());
      if depth.None? {
        return None;
      }
      var built := MaterializeInternal(id, false);
      if built.Err? {
        return None;
      }
      var skip := BuildSkipPatches(built.value.bytes, e.delta.value.base, depth.value, policy.maxSkip);
      return Some(Update(depth.value, skip));
    }

    method PlanSkips() returns (updates: map<ValueId, Update>)
      requires Shape() && ValidDb(h, Db()) && policy.maxSkip > 0
      ensures PlanFor(h, Db(), policy, Db().Keys, updates)
    {
      hide Acyclic, ValidDb, Shape, Db, UpdateFor;
      updates := map[];
      var ids, done := index.Keys, {};
      while ids - done != {}
        invariant done <= ids == Db().Keys
        invariant PlanFor(h, Db(), policy, done, updates)
        decreases ids - done
      {
        var id :| id in ids - done;
        var update := PlanOne(id);
        PlanGrows(h, Db(), policy, done, updates, id, update);
        if update.Some? {
          updates := updates[id := update.value];
        }
        done := done + {id};
      }
      NothingLeft(ids, done);
    }

    method ApplyOne(id: ValueId, updates: map<ValueId, Update>, ghost db: Db, ghost done: set<ValueId>)
      requires Shape() && Acyclic(db) && PlanFor(h, db, policy, db.Keys, updates) && id in updates && id !in done
      requires Db() == ReskippedOn(h, db, policy, done)
      modifies this`entries
      ensures Shape() && Db() == ReskippedOn(h, db, policy, done + {id})
    {
      hide Acyclic, Mat, Shape, Db, ReskippedEntry;
      ReskipOneMore(h, db, policy, done, id);
      SetEntry(id, WithSkips(EntryById(id).value, updates[id].depth, updates[id].skip));
    }

    method ApplySkips(updates: map<ValueId, Update>)
      requires Shape() && Acyclic(Db()) && PlanFor(h, Db(), policy, Db().Keys, updates)
      modifies this`entries
      ensures Shape() && Db() == Reskipped(h, old(Db()), policy)
    {
      hide Acyclic, Mat, Shape, Db, ReskippedEntry, ReskippedOn, Reskipped, PlanFor;
      ghost var db := Db();
      PlanCovers(h, db, policy, updates);
      FlattenNone(h, db, policy);
      var ids, done := updates.Keys, {};
      while ids - done != {}
        invariant Shape() && done <= ids
        invariant Db() == ReskippedOn(h, db, policy, done)
        decreases ids - done
      {
        var id :| id in ids - done;
        ApplyOne(id, updates, db, done);
        done := done + {id};
      }
      NothingLeft(ids, done);
    }

    /** Compaction rewrites entries in place and changes no meaning; in a store no refused import has touched, no chain
        exceeds the policy's limit afterwards. */
    method CompactDeltas() returns (rewritten: nat)
      requires Valid()
      modifies this`entries
      ensures Valid()
      ensures Db() == Compacted(h, old(Db()), policy)
      ensures Contents() == old(Contents())
      ensures old(Healthy(h, Db())) ==> Healthy(h, Db())
      ensures old(Healthy(h, Db())) && policy.maxChain > 0 ==>
        forall id, n: nat :: ChainLen(Db(), id, n) ==> n <= policy.maxChain
      ensures Db().Keys == old(Db()).Keys
      ensures forall id :: id in old(Db()) ==> CompactedAs(h, old(Db()), policy, id, Db()[id])
      ensures rewritten == |ChangedKinds(old(Db()), Db())|
    {
      hide *;
      ValidIs();
      ghost var before := Db();
      CompactKeeps(h, before, policy);
      CompactedKeys(h, before, policy);
      EachCompacted(h, before, policy);
      DissolvedAreChanged(h, before, policy);
      FlattenedIsValid(h, before, policy);
      var flagged := FindFlagged();
      rewritten := Flatten(flagged);
      if policy.maxSkip > 0 {
        var updates := PlanSkips();
        ApplySkips(updates);
      } else {
        NothingReskipped(h, Db(), policy);
      }
      ValidIs();
    }

    lemma EachCompacted(h: Hash, db: Db, p: DeltaPolicy)
      requires ValidDb(h, db)
      ensures Acyclic(db)
      ensures forall id :: id in db ==> id in Compacted(h, db, p) && CompactedAs(h, db, p, id, Compacted(h, db, p)[id])
    {
      hide Compacted, CompactedAs, Mat, Sound;
      forall id | id in db
        ensures id in Compacted(h, db, p) && CompactedAs(h, db, p, id, Compacted(h, db, p)[id])
      {
        CompactedEntry(h, db, p, id);
      }
    }

    /******* Entries from outside *******/

    /** The depth of `id`'s chain; an error exactly when it has none, be it for a cycle or a missing base. */
    method RebuildLoadedDepth(id: ValueId, memo: map<ValueId, nat>, visiting: set<ValueId>)
      returns (r: Outcome<nat>, memo': map<ValueId, nat>)
      requires Shape() && MemoOk(Db(), memo) && OnPath(Db(), visiting, id)
      ensures MemoOk(Db(), memo')
      ensures r.Ok? ==> ChainLen(Db(), id, r.value)
      ensures r.Err? ==> !HasChain(Db(), id)
      decreases Db().Keys - visiting
    {
      hide Shape, Db, Leads, HasChain;
      ChainStep(Db(), id);
      memo' := memo;
      if id in memo {
        return Ok(memo[id]), memo';
      }
      if id in visiting {
        ghost var k: nat :| k > 0 && Leads(Db(), id, id, k);
        NoChainThroughItself(Db(), id, k);
        return Err(InvalidDelta), memo';
      }
      var found := EntryById(id);
      if found.None? {
        return Err(NotFound), memo';
      }
      var depth := 0;
      if found.value.kind == Delta {
        if found.value.delta.None? {
          return Err(InvalidDelta), memo';
        }
        var base := found.value.delta.value.base;
        if EntryById(base).None? {
          ChainStep(Db(), base);
          return Err(MissingDeltaBase), memo';
        }
        PathGrows(Db(), visiting, id);
        var below;
        below, memo' := RebuildLoadedDepth(base, memo', visiting + {id});
        if below.Err? {
          return Err(below.error), memo';
        }
        depth := below.value + 1;
      }
      memo' := memo'[id := depth];
      return Ok(depth), memo';
    }

    method NormalizeOne(id: ValueId, memo: map<ValueId, nat>, ghost db: Db, ghost ids: seq<ValueId>, ghost n: nat)
      returns (r: Outcome<()>, memo': map<ValueId, nat>)
      requires Shape() && id in db && MemoOk(db, memo) && Deepened(db, ids, n, Db())
      modifies this`entries
      ensures Shape() && Db().Keys == db.Keys && MemoOk(db, memo')
      ensures r.Ok? <==> HasChain(db, id)
      ensures if r.Ok? then Db() == NormalizedOn(db, FirstIds(ids, n) + {id}) else Db() == old(Db())
    {
      hide Shape, Db, NormalizedOn, HasChain;
      ghost var done := FirstIds(ids, n);
      MemoSurvives(db, done, memo);
      HasChainSurvives(db, done, id);
      var depth;
      depth, memo' := RebuildLoadedDepth(id, memo, {});
      MemoSurvives(db, done, memo');
      if depth.Err? {
        return Err(depth.error), memo';
      }
      NormalizedKeepsChains(db, done, id, depth.value);
      ChainShows(db, id, depth.value);
      NormalizeOneMore(db, done, id, depth.value);
      SetEntry(id, WithDepth(EntryById(id).value, depth.value));
      return Ok(()), memo';
    }

    /** Works out every depth afresh and drops all skip patches; stops at the first id without a chain. */
    method RecomputeDepths() returns (r: Outcome<()>)
      requires Shape()
      modifies this`entries
      ensures Shape() && Db().Keys == old(Db()).Keys
      ensures r.Ok? <==> AllChains(old(Db()))
      ensures Db() == Loosened(old(Db()), entryIds)
      ensures r.Ok? ==> Db() == Normalized(old(Db()))
    {
      ghost var db := Db();
      var ids := entryIds;
      ListedIds();
      hide NormalizedOn, Normalized, Loosened, HasChain, AllChains, Shape, Db, FirstIds, Deepened;
      var memo: map<ValueId, nat> := map[];
      NothingDeepened(db, ids);
      for i := 0 to |ids|
        invariant Shape() && entryIds == ids && MemoOk(db, memo) && Deepened(db, ids, i, Db())
      {
        var step;
        ghost var now := Db();
        step, memo := NormalizeOne(ids[i], memo, db, ids, i);
        if step.Err? {
          DeepenedAsFar(db, ids, i, Db());
          return Err(step.error);
        }
        DeepenedMore(db, ids, i, now, Db());
      }
      DeepenedAsFar(db, ids, |ids|, Db());
      return Ok(());
    }

    lemma ListedIds()
      requires Shape()
      ensures FirstIds(entryIds, |entryIds|) == Db().Keys
      ensures forall i :: 0 <= i < |entryIds| ==> entryIds[i] in Db()
    {
      forall id | id in Db()
        ensures exists i :: 0 <= i < |entryIds| && entryIds[i] == id
      {
        assert entryIds[index[id]] == id;
      }
    }

    /** Rebuilds every delta once, without skip patches, and reports the first one that fails. */
    method CheckRebuilds() returns (r: Outcome<()>)
      requires Shape() && Acyclic(Db())
      ensures r.Ok? <==> AllRebuild(h, Db())
    {
      hide Acyclic, Db, BestOf;
      for i := 0 to |entryIds|
        invariant forall j :: 0 <= j < i ==> Mat(h, Db(), entryIds[j], false).Ok?
      {
        var id := entryIds[i];
        var e := EntryById(id).value;
        if e.kind == Delta {
          var built := MaterializeInternal(id, false);
          if built.Err? {
            return Err(built.error);
          }
        }
      }
      return Ok(());
    }

    /** Accepts the entries as they stand exactly when every chain is well founded and every delta rebuilds. */
    method RecomputeLoadedMetadata() returns (r: Outcome<()>)
      requires Shape() && ShadowsOk()
      modifies this`entries, this`sortedKeys, this`sortedEntries, this`learned, this`insertsSinceRefresh
      ensures Shape() && ShadowsOk()
      ensures r.Ok? <==> Acceptable(h, old(Db()))
      ensures Db() == Loosened(old(Db()), entryIds)
      ensures r.Ok? ==> Db() == Normalized(old(Db()))
    {
      hide Shape, Db, Normalized, Loosened, Acyclic, AllChains, AllRebuild;
      ghost var db := Db();
      var depths := RecomputeDepths();
      if depths.Err? {
        return Err(depths.error);
      }
      NormalizedAcyclic(db);
      var rebuilt := CheckRebuilds();
      if rebuilt.Err? {
        return Err(rebuilt.error);
      }
      if config.enableLearned {
        RefreshLearnedIndex();
      }
      return Ok(());
    }

    /** Adds transferred entries, deltas before or after their bases; ids already stored are skipped. Whatever state the
        store is in, they are accepted exactly when nothing was new or the merged store is well founded and rebuilds; after
        an error the arrivals stay, with the depths worked out so far; and every value in a part in working order still
        rebuilds to the same bytes. A store in working order stays so unless the base links of the arrivals and of deltas
        that waited run in a circle. */
    method ImportTransferEntries(es: Incoming, ghost part: Db) returns (r: Outcome<nat>)
      requires Shape() && ShadowsOk() && BoundedEntries(es)
      requires IsPart(part, Db()) && ValidDb(h, part) && Complete(h, part)
      modifies this`entries, this`entryIds, this`index, this`sortedKeys, this`sortedEntries, this`learned,
               this`insertsSinceRefresh, bloom
      ensures Shape() && ShadowsOk()
      ensures entryIds == old(entryIds) + ArrivingIds(old(Db()).Keys, es)
      ensures var merged := Merge(old(Db()), es);
        && (r.Ok? <==> merged == old(Db()) || Acceptable(h, merged))
        && Db() == (if merged == old(Db()) then old(Db()) else Loosened(merged, entryIds))
        && (r.Ok? ==> r.value == |merged| - |old(Db())| && (r.value == 0 <==> merged == old(Db())))
      ensures r.Err? ==> Db().Keys > old(Db()).Keys
      ensures r.Ok? ==> Db() == (if r.value == 0 then old(Db()) else Normalized(Merge(old(Db()), es)))
      ensures Stands(h, part, Db())
      ensures old(Valid()) && NoSkips(Arrivals(old(Db()), es)) ==>
        (Acyclic(Db()) <==> !Cyclic(Pending(h, old(Db()), es)))
      ensures old(Valid()) && (r.Ok? || (NoSkips(Arrivals(old(Db()), es)) && !Cyclic(Pending(h, old(Db()), es)))) ==>
        Valid() && Within(old(Contents()), Contents())
      ensures old(Valid()) && r.Ok? && r.value > 0 ==> Healthy(h, Db()) && Contents().Keys == Db().Keys
    {
      hide *;
      ValidIs();
      ghost var before, valid := Db(), Valid();
      var inserted := InsertNew(es);
      MergeFacts(before, es);
      NormalizeNone(Merge(before, es));
      if inserted == 0 {
        ImportLeaves(h, before, part, es, {}, valid);
        ValidIs();
        return Ok(0);
      }
      ImportLeaves(h, before, part, es, DepthsDone(Merge(before, es), entryIds), valid);
      if valid {
        ImportAccepted(h, before, es);
      }
      var outcome := RecomputeLoadedMetadata();
      LoosenedIs(Merge(before, es), entryIds);
      ValidIs();
      if outcome.Err? {
        return Err(outcome.error);
      }
      return Ok(inserted);
    }

    lemma ValidIs()
      requires Shape() || Valid()
      ensures Shape() && (Valid() <==> ShadowsOk() && ValidDb(h, Db()))
      ensures Acyclic(Db()) ==> Contents() == Meaning(h, Db())
      ensures ValidDb(h, Db()) ==> Acyclic(Db()) && Within(Contents(), Contents())
    {
      hide Mat, Acyclic, Sound;
    }

    method InsertNew(es: Incoming) returns (inserted: nat)
      requires Shape() && ShadowsOk()
      modifies this`entries, this`entryIds, this`index, bloom
      ensures Shape() && ShadowsOk() && Db() == Merge(old(Db()), es)
      ensures entryIds == old(entryIds) + ArrivingIds(old(Db()).Keys, es)
      ensures inserted == |Db()| - |old(Db())|
      ensures inserted == 0 <==> Db() == old(Db())
    {
      hide *;
      ghost var before, known := Db(), Db().Keys;
      inserted := 0;
      assert es[0..] == es;
      for i := 0 to |es|
        invariant Shape() && ShadowsOk()
        invariant Merge(before, es) == Merge(Db(), es[i..])
        invariant old(entryIds) + ArrivingIds(known, es) == entryIds + ArrivingIds(Db().Keys, es[i..])
        invariant inserted == |Db()| - |before| && (inserted == 0 ==> Db() == before)
      {
        assert es[i..][0] == es[i] && es[i..][1..] == es[i + 1..];
        var one := InsertNext(es[i].0, es[i].1, es[i..]);
        if one {
          inserted := inserted + 1;
        }
      }
      NothingArrives(Db());
      assert es[|es|..] == [] && entryIds + [] == entryIds;
    }

    /** Inserts the next of the entries `es` unless its id is stored already. */
    method InsertNext(id: ValueId, e: ValueEntry, ghost es: Incoming) returns (one: bool)
      requires Shape() && ShadowsOk() && es != [] && es[0] == (id, e)
      modifies this`entries, this`entryIds, this`index, bloom
      ensures Shape() && ShadowsOk() && Merge(Db(), es[1..]) == Merge(old(Db()), es)
      ensures entryIds + ArrivingIds(Db().Keys, es[1..]) == old(entryIds) + ArrivingIds(old(Db()).Keys, es)
      ensures if one then |Db()| == |old(Db())| + 1 else Db() == old(Db())
    {
      hide *;
      ArrivalStep(Db(), es);
      one := EntryById(id).None?;
      if one {
        ghost var stored, later := entryIds, ArrivingIds(Db().Keys + {id}, es[1..]);
        assert stored + ([id] + later) == (stored + [id]) + later;
        AppendEntry(id, e);
      }
    }

    /** A store built from the records of a segment file, which must not repeat an id. */
    static method LoadStore(h: Hash, config: Config, es: Incoming) returns (r: Outcome<ValueStore>)
      requires BoundedEntries(es)
      ensures r.Ok? <==> DistinctIds(es) && Acceptable(h, Merge(map[], es))
      ensures r.Ok? ==> var s := r.value;
        && fresh(s) && fresh(s.bloom) && s.Valid() && s.h == h && s.policy == config.policy
        && s.Db() == Normalized(Merge(map[], es))
        && Healthy(h, s.Db()) && s.Contents().Keys == s.Db().Keys
    {
      hide *;
      var s := new ValueStore(h, config);
      s.ValidIs();
      ImportAccepted(h, map[], es);
      var distinct := s.InsertAll(es);
      if !distinct {
        return Err(DuplicateValueId);
      }
      var outcome := s.RecomputeLoadedMetadata();
      s.ValidIs();
      if outcome.Err? {
        return Err(outcome.error);
      }
      return Ok(s);
    }

    /** Inserts loaded entries into an empty store, stopping at the first id met twice. */
    method InsertAll(es: Incoming) returns (distinct: bool)
      requires Shape() && ShadowsOk() && Db() == map[]
      modifies this`entries, this`entryIds, this`index, bloom
      ensures Shape() && ShadowsOk()
      ensures distinct <==> DistinctIds(es)
      ensures distinct ==> Db() == Merge(map[], es)
    {
      hide Shape, ShadowsOk, Db;
      for i := 0 to |es|
        invariant Shape() && ShadowsOk()
        invariant Merge(map[], es) == Merge(Db(), es[i..])
        invariant forall j :: 0 <= j < i ==> es[j].0 in Db()
        invariant forall id :: id in Db() ==> exists j :: 0 <= j < i && es[j].0 == id
        invariant DistinctIds(es[..i])
      {
        var (id, e) := es[i];
        assert es[i..][0] == es[i] && es[i..][1..] == es[i + 1..];
        if id in index {
          return false;
        }
        AppendEntry(id, e);
        assert es[..i + 1] == es[..i] + [es[i]];
      }
      assert es[..|es|] == es;
      return true;
    }

    /******* Lookup *******/

    /** Sorts the ids of the index, whatever order they are enumerated in. */
    method RebuildSortedKeys()
      requires Shape() && ShadowsOk()
      modifies this`sortedKeys, this`sortedEntries
      ensures Shape() && ShadowsOk()
      ensures forall id :: id in index <==> id in sortedKeys
    {
      hide Bloom.Admits, L.StrictlySorted;
      var keys := SortIds(index.Keys);
      sortedKeys := keys;
      sortedEntries := seq(|keys|, i requires 0 <= i < |keys| reads this => if keys[i] in index then index[keys[i]] else 0);
    }

    method RefreshLearnedIndex()
      requires Shape() && ShadowsOk()
      modifies this`sortedKeys, this`sortedEntries, this`learned, this`insertsSinceRefresh
      ensures Shape() && ShadowsOk()
      ensures config.enableLearned ==> insertsSinceRefresh == 0 && forall id :: id in index <==> id in sortedKeys
      ensures config.enableLearned && |sortedKeys| >= config.minSamples ==> ModelCurrent()
      ensures !config.enableLearned ==> learned == None && sortedKeys == []
    {
      hide L.SegmentsFrom, Bloom.Admits;
      if !config.enableLearned {
        learned, sortedKeys, sortedEntries := None, [], [];
        return;
      }
      RebuildSortedKeys();
      if |sortedKeys| >= config.minSamples {
        var model := L.Build(sortedKeys, SegmentSize());
        learned := Some(model);
      } else {
        learned := None;
      }
      insertsSinceRefresh := 0;
    }

    function SegmentSize(): (n: nat)
      ensures n >= 16
    {
      if config.segmentSize > 16 then config.segmentSize else 16
    }

    /** The learned index was built from the sorted keys as they stand. */
    ghost predicate ModelCurrent()
      reads this
    {
      config.enableLearned && learned == Some(L.Model(L.SegmentsFrom(sortedKeys, SegmentSize(), 0), |sortedKeys|))
    }

    /** Enough samples, and no model yet or enough inserts since it was built. */
    predicate RefreshDue()
      reads this`entries, this`learned, this`insertsSinceRefresh
    {
      config.enableLearned && |entries| >= config.minSamples && (learned.None? || insertsSinceRefresh >= config.maxInserts)
    }

    /** Refreshes when the samples, the inserts or the (unmodelled) shift of the lookup histogram ask for it. */
    method MaybeRefresh()
      requires Shape() && ShadowsOk()
      modifies this`sortedKeys, this`sortedEntries, this`learned, this`insertsSinceRefresh
      ensures Shape() && ShadowsOk()
      ensures old(RefreshDue()) ==> insertsSinceRefresh == 0 && forall id :: id in index <==> id in sortedKeys
      ensures !config.enableLearned || |entries| < config.minSamples ==>
        learned == old(learned) && sortedKeys == old(sortedKeys) && insertsSinceRefresh == old(insertsSinceRefresh)
    {
      var shifted: bool := *;
      if config.enableLearned && |entries| >= config.minSamples
         && (learned.None? || insertsSinceRefresh >= config.maxInserts || shifted) {
        RefreshLearnedIndex();
      }
    }

    /** Whatever range the model predicts, the entry returned is the one the index holds. While the model is current
        and the 8-byte prefixes differ, a key it was built from is found without the fallback in a bounded window. */
    method GetWithTrace(id: ValueId) returns (e: Option<ValueEntry>, trace: LookupTrace)
      requires Shape() && ShadowsOk()
      ensures e == if id in Db() then Some(Db()[id]) else None
      ensures trace.usedFallback ==> e.Some?
      ensures ModelCurrent() && L.DistinctPrefixes(sortedKeys) && id in sortedKeys ==>
        && trace.usedLearned && !trace.usedFallback
        && var i := L.SegmentIndex(learned.value.segments, L.Prefix(id));
           i < |learned.value.segments| && trace.probes <= 2 * (learned.value.segments[i].maxError + 1) + 1
    {
      hide L.PredictRange, L.SegmentsFrom, L.SegmentIndex, L.StrictlySorted, L.DistinctPrefixes, Bloom.Admits;
      var probes, usedLearned := 0, false;
      if config.enableLearned && learned.Some? {
        var range := L.PredictRange(learned.value, id);
        if ModelCurrent() && L.DistinctPrefixes(sortedKeys) && id in sortedKeys {
          var pos: nat :| pos < |sortedKeys| && sortedKeys[pos] == id;
          L.WindowContainsKey(sortedKeys, SegmentSize(), pos);
        }
        if range.Some? {
          usedLearned := true;
          var found;
          found, probes := ProbeRange(id, range.value.0, range.value.1);
          if found.Some? {
            return Some(entries[sortedEntries[found.value]]), LookupTrace(probes, true, false);
          }
        }
      }
      e := EntryById(id);
      if e.Some? {
        probes := probes + 1;
      }
      trace := LookupTrace(probes, usedLearned, e.Some?);
    }

    /** Probes the sorted keys at the positions `start..=end`; positions past the end of the array find nothing. */
    method ProbeRange(id: ValueId, start: nat, end: nat) returns (found: Option<nat>, probes: nat)
      ensures found.Some? ==> found.value < |sortedKeys| && sortedKeys[found.value] == id
      ensures found.None? ==> forall i :: start <= i <= end && i < |sortedKeys| ==> sortedKeys[i] != id
      ensures probes <= if start <= end then end - start + 1 else 0
    {
      probes := 0;
      var idx := start;
      while idx <= end
        invariant probes == idx - start && idx >= start
        invariant if start <= end then idx <= end + 1 else idx == start
        invariant forall i :: start <= i < idx && i < |sortedKeys| ==> sortedKeys[i] != id
      {
        probes := probes + 1;
        if idx < |sortedKeys| && sortedKeys[idx] == id {
          return Some(idx), probes;
        }
        idx := idx + 1;
      }
      return None, probes;
    }

    /** The Bloom filter never denies a stored id. */
    method BloomMaybeContains(id: ValueId) returns (r: bool)
      requires Shape() && ShadowsOk()
      ensures id in Db() ==> r
    {
      r := bloom.MaybeContains(id);
    }
  }
}

/** Stores only part of which is well founded, as an import that is refused can leave them. */
module PartialStore {
  import opened Wrappers
  import opened Codec
  import opened Patch
  import opened ValueGraph
  import opened Compaction
  import opened Import

  /** `part` holds some entries of `db`, and rebuilding them reads no other entry of it. */
  ghost predicate IsPart(part: Db, db: Db) {
    && part.Keys <= db.Keys
    && (forall id :: id in part ==> part[id] == db[id])
    && (forall id, b :: id in part && b in db && Reads(part[id], b) ==> b in part)
  }

  lemma WholeIsPart(db: Db)
    ensures IsPart(db, db)
  {
  }

  lemma InPart(part: Db, db: Db, id: ValueId)
    requires IsPart(part, db) && (id in part || id !in db)
    ensures id in part <==> id in db
    ensures id in part ==> part[id] == db[id]
    ensures id in part && Chained(part[id]) ==> part[id].delta.value.base in part || part[id].delta.value.base !in db
  {
  }

  function Restrict(db: Db, ids: set<ValueId>): (r: Db) {
    map id | id in db && id in ids :: db[id]
  }

  /** The ids whose reading nothing stored later can change: all but the deltas that wait for a value. */
  ghost function Fixed(h: Hash, db: Db): set<ValueId>
    requires Acyclic(db)
  {
    db.Keys - Waiting(h, db).Keys
  }

  /** Those entries alone are a store in working order with the same values. */
  lemma FixedPart(h: Hash, db: Db)
    requires ValidDb(h, db)
    ensures var part := Restrict(db, Fixed(h, db));
      IsPart(part, db) && ValidDb(h, part) && Complete(h, part) && Meaning(h, part) == Meaning(h, db)
  {
    hide Mat, EntrySound;
    var part, m := Restrict(db, Fixed(h, db)), Meaning(h, db);
    forall id | id in part
      ensures EntrySound(h, m, id, part[id])
      ensures forall b :: Reads(part[id], b) ==> b in m
    {
      assert EntrySound(h, m, id, db[id]);
      forall b | Reads(part[id], b)
        ensures b in m
      {
        ValuesReadValues(h, m, id, part[id], b);
      }
    }
    assert forall b :: b in m && b in db ==> b in part;
    var rank :| Ranked(db, rank);
    assert Ranked(part, rank);
    MeaningIs(h, part, m);
  }

  /******* What an import leaves, accepted or not *******/

  /** The ids whose depths are worked out before the first one that has no chain, in stored order. */
  ghost function DepthsDone(db: Db, ids: seq<ValueId>): set<ValueId> {
    set i | 0 <= i < |ids| && (forall j :: 0 <= j <= i ==> HasChain(db, ids[j])) :: ids[i]
  }

  ghost function FirstIds(ids: seq<ValueId>, n: nat): set<ValueId>
    requires n <= |ids|
  {
    set j | 0 <= j < n :: ids[j]
  }

  lemma DepthsDoneStops(db: Db, ids: seq<ValueId>, n: nat)
    requires n <= |ids| && (forall j :: 0 <= j < n ==> HasChain(db, ids[j])) && FirstIds(ids, |ids|) == db.Keys
    requires n < |ids| ==> !HasChain(db, ids[n])
    ensures DepthsDone(db, ids) == FirstIds(ids, n)
    ensures AllChains(db) <==> n == |ids|
  {
    hide HasChain;
    assert n < |ids| ==> !HasChain(db, ids[n]) && ids[n] in FirstIds(ids, |ids|);
    forall id | id in db
      ensures exists j :: 0 <= j < |ids| && ids[j] == id
    {
      assert id in FirstIds(ids, |ids|);
    }
    forall id | id in DepthsDone(db, ids)
      ensures exists j :: 0 <= j < n && ids[j] == id
    {
      var i :| 0 <= i < |ids| && ids[i] == id && forall j :: 0 <= j <= i ==> HasChain(db, ids[j]);
      assert i < n;
    }
  }

  /** The depths of the first `n` ids have been worked out. */
  ghost predicate Deepened(db: Db, ids: seq<ValueId>, n: nat, now: Db) {
    n <= |ids| && now == NormalizedOn(db, FirstIds(ids, n)) && forall j :: 0 <= j < n ==> HasChain(db, ids[j])
  }

  lemma NothingDeepened(db: Db, ids: seq<ValueId>)
    ensures Deepened(db, ids, 0, db)
  {
    NormalizeNone(db);
    assert FirstIds(ids, 0) == {};
  }

  lemma DeepenedMore(db: Db, ids: seq<ValueId>, n: nat, now: Db, later: Db)
    requires Deepened(db, ids, n, now) && n < |ids| && HasChain(db, ids[n])
    requires later == NormalizedOn(db, FirstIds(ids, n) + {ids[n]})
    ensures Deepened(db, ids, n + 1, later)
  {
    assert FirstIds(ids, n + 1) == FirstIds(ids, n) + {ids[n]};
  }

  lemma DeepenedAsFar(db: Db, ids: seq<ValueId>, n: nat, now: Db)
    requires Deepened(db, ids, n, now) && FirstIds(ids, |ids|) == db.Keys
    requires n < |ids| ==> !HasChain(db, ids[n])
    ensures now == Loosened(db, ids) && (AllChains(db) <==> n == |ids|) && (AllChains(db) ==> now == Normalized(db))
  {
    hide HasChain, NormalizedOn;
    DepthsDoneStops(db, ids, n);
  }

  /** The entries an import adds: of those with one id the first, and none whose id is stored already. */
  function Arrivals(db: Db, es: Incoming): (new': Db) {
    var merged := Merge(db, es);
    map id | id in merged && id !in db :: merged[id]
  }

  /** The ids of the arrivals in the order they are stored. */
  function ArrivingIds(ids: set<ValueId>, es: Incoming): seq<ValueId>
    decreases |es|
  {
    if es == [] then []
    else if es[0].0 in ids then ArrivingIds(ids, es[1..])
    else [es[0].0] + ArrivingIds(ids + {es[0].0}, es[1..])
  }

  lemma ArrivalStep(db: Db, es: Incoming)
    requires es != []
    ensures var (id, e) := es[0];
      if id in db then Merge(db, es) == Merge(db, es[1..]) && ArrivingIds(db.Keys, es) == ArrivingIds(db.Keys, es[1..])
      else
        && Merge(db, es) == Merge(db[id := e], es[1..])
        && ArrivingIds(db.Keys, es) == [id] + ArrivingIds(db.Keys + {id}, es[1..])
        && db[id := e].Keys == db.Keys + {id}
  {
  }

  lemma NothingArrives(db: Db)
    ensures Merge(db, []) == db && ArrivingIds(db.Keys, []) == []
  {
  }

  /** The store after an import whose entries made it `merged`, with `ids` the ids in stored order. */
  ghost function Loosened(merged: Db, ids: seq<ValueId>): (r: Db)
    ensures r.Keys == merged.Keys
  {
    NormalizedOn(merged, DepthsDone(merged, ids))
  }

  lemma NormalizedOnEntry(db: Db, done: set<ValueId>, id: ValueId)
    requires id in db
    ensures var e, e' := db[id], NormalizedOn(db, done)[id];
      && e'.kind == e.kind && e'.bytes == e.bytes && e'.delta.Some? == e.delta.Some?
      && (e.delta.Some? ==> e'.delta.value.base == e.delta.value.base && e'.delta.value.fullLen == e.delta.value.fullLen
                            && (e'.delta.value.skip == e.delta.value.skip || e'.delta.value.skip == []))
      && (id !in done ==> e' == e)
  {
    hide HasChain;
  }

  lemma FewerReads(db: Db, done: set<ValueId>, id: ValueId, b: ValueId)
    requires id in db && Reads(NormalizedOn(db, done)[id], b)
    ensures Reads(db[id], b)
  {
    NormalizedOnEntry(db, done, id);
  }

  lemma NormalizingKeepsSound(h: Hash, m: Model, db: Db, done: set<ValueId>, id: ValueId)
    requires id in db && EntrySound(h, m, id, db[id])
    ensures EntrySound(h, m, id, NormalizedOn(db, done)[id])
  {
    hide ApplyPatch;
    NormalizedOnEntry(db, done, id);
  }

  /** In a store where every delta has a value, entries read only one another. */
  lemma ReadsOwn(h: Hash, db: Db, id: ValueId, b: ValueId)
    requires ValidDb(h, db) && Complete(h, db) && id in db && Reads(db[id], b)
    ensures b in db
  {
    hide EntrySound;
    assert EntrySound(h, Meaning(h, db), id, db[id]);
    ValuesReadValues(h, Meaning(h, db), id, db[id], b);
  }

  /** What a part of a store held stands: those entries read only one another, are in working order, and mean what they
      did. */
  ghost predicate Stands(h: Hash, part: Db, after: Db)
    requires Acyclic(part)
  {
    var kept := Restrict(after, part.Keys);
    && part.Keys <= after.Keys && IsPart(kept, after) && ValidDb(h, kept) && Complete(h, kept)
    && Meaning(h, kept) == Meaning(h, part) && (Healthy(h, part) ==> Healthy(h, kept))
  }

  /** Whatever becomes of an import, and whatever state the rest of the store is in, every value stored before still rebuilds
      to the same bytes. */
  lemma ImportNeverHarms(h: Hash, before: Db, part: Db, es: Incoming, done: set<ValueId>)
    requires IsPart(part, before) && ValidDb(h, part) && Complete(h, part)
    ensures Stands(h, part, NormalizedOn(Merge(before, es), done))
  {
    hide ApplyPatch, Mat, HasChain, DepthsBound, EntrySound, NormalizedOn;
    var merged := Merge(before, es);
    var after := NormalizedOn(merged, done);
    var kept, m := Restrict(after, part.Keys), Meaning(h, part);
    MergeFacts(before, es);
    forall id, b | id in kept && b in after && Reads(kept[id], b)
      ensures b in part
    {
      FewerReads(merged, done, id, b);
      ReadsOwn(h, part, id, b);
    }
    PartAcyclic(part, merged, done);
    forall id | id in kept
      ensures EntrySound(h, m, id, kept[id]) && Chained(kept[id]) == Chained(part[id])
    {
      assert EntrySound(h, m, id, part[id]);
      NormalizingKeepsSound(h, m, merged, done, id);
      NormalizedSame(merged, done, id);
    }
    assert Sound(h, kept, m);
    MeaningIs(h, kept, m);
    if Healthy(h, part) {
      PartDepthsBound(h, part, merged, done);
    }
  }

  lemma PartAcyclic(part: Db, merged: Db, done: set<ValueId>)
    requires Acyclic(part) && part.Keys <= merged.Keys && forall id :: id in part ==> merged[id] == part[id]
    ensures Acyclic(Restrict(NormalizedOn(merged, done), part.Keys))
  {
    hide HasChain;
    var rank :| Ranked(part, rank);
    var kept := Restrict(NormalizedOn(merged, done), part.Keys);
    forall id, b | id in kept && b in kept && Reads(kept[id], b)
      ensures rank[b] < rank[id]
    {
      FewerReads(merged, done, id, b);
    }
    assert Ranked(kept, rank);
  }

  lemma PartDepthsBound(h: Hash, part: Db, merged: Db, done: set<ValueId>)
    requires DepthsBound(part) && part.Keys <= merged.Keys && forall id :: id in part ==> merged[id] == part[id]
    ensures DepthsBound(Restrict(NormalizedOn(merged, done), part.Keys))
  {
    hide HasChain;
    var kept := Restrict(NormalizedOn(merged, done), part.Keys);
    forall id, n: nat | ChainLen(kept, id, n) && Chained(kept[id])
      ensures n <= kept[id].delta.value.depth
    {
      PartChain(part, merged, done, id, n);
      NormalizedOnEntry(merged, done, id);
      if id in done {
        DepthOfIs(merged, id, n);
      }
    }
  }

  lemma {:induction false} PartChain(part: Db, merged: Db, done: set<ValueId>, id: ValueId, n: nat)
    requires part.Keys <= merged.Keys && forall id :: id in part ==> merged[id] == part[id]
    requires ChainLen(Restrict(NormalizedOn(merged, done), part.Keys), id, n)
    ensures ChainLen(part, id, n) && ChainLen(merged, id, n)
    decreases n
  {
    hide HasChain;
    NormalizedOnEntry(merged, done, id);
    if n > 0 {
      PartChain(part, merged, done, part[id].delta.value.base, n - 1);
    }
  }

  /******* When a store is still well founded after an import *******/

  /** What an import may tie together: the entries that arrive and the deltas that were waiting. */
  ghost function Pending(h: Hash, before: Db, es: Incoming): Db
    requires Acyclic(before)
  {
    var merged := Merge(before, es);
    map id | id in merged && (id !in before || id in Waiting(h, before)) :: merged[id]
  }

  lemma NothingPending(h: Hash, before: Db, es: Incoming)
    requires Acyclic(before) && Complete(h, before)
    ensures Pending(h, before, es) == Arrivals(before, es)
  {
    hide Mat;
    NobodyWaits(h, before, seq(16, _ => 0));
  }

  /** The entries with the skip patches of those in `done` dropped. */
  function Cleared(db: Db, done: set<ValueId>): Db {
    map id | id in db :: if id in done then WithDepth(db[id], 0) else db[id]
  }

  lemma ClearedReads(db: Db, done: set<ValueId>, id: ValueId, b: ValueId)
    requires id in db
    ensures Reads(NormalizedOn(db, done)[id], b) <==> Reads(Cleared(db, done)[id], b)
  {
    hide HasChain;
  }

  lemma PendingReads(h: Hash, before: Db, es: Incoming, done: set<ValueId>, id: ValueId, b: ValueId)
    requires Acyclic(before) && id in Pending(h, before, es)
    ensures id in Cleared(Pending(h, before, es), done)
    ensures Reads(NormalizedOn(Merge(before, es), done)[id], b) <==> Reads(Cleared(Pending(h, before, es), done)[id], b)
  {
    hide HasChain, Mat, Merge;
    ClearedReads(Merge(before, es), done, id, b);
  }

  /** After an import the store is well founded exactly when the entries that arrived and those that waited are, taken by
      themselves. */
  lemma ImportWellFoundedIff(h: Hash, before: Db, es: Incoming, done: set<ValueId>)
    requires ValidDb(h, before)
    ensures Acyclic(NormalizedOn(Merge(before, es), done)) <==> Acyclic(Cleared(Pending(h, before, es), done))
  {
    hide HasChain, Mat, Sound, ApplyPatch, Reads;
    var merged, new' := Merge(before, es), Cleared(Pending(h, before, es), done);
    var after := NormalizedOn(merged, done);
    MergeFacts(before, es);
    if Acyclic(after) {
      var rank :| Ranked(after, rank);
      forall id, b | id in new' && b in new' && Reads(new'[id], b)
        ensures rank[b] < rank[id]
      {
        PendingReads(h, before, es, done, id, b);
      }
      assert Ranked(new', rank);
    }
    if Acyclic(new') {
      ArrivalsOnTop(h, before, es, done);
    }
  }

  /** Entries with values below, the others above: the ranks of both together rank the store. */
  lemma ArrivalsOnTop(h: Hash, before: Db, es: Incoming, done: set<ValueId>)
    requires ValidDb(h, before) && Acyclic(Cleared(Pending(h, before, es), done))
    ensures Acyclic(NormalizedOn(Merge(before, es), done))
  {
    hide HasChain, Mat, Sound, ApplyPatch, ValidDb, NormalizedOn, Reads, Cleared, Merge, IsPart, Complete;
    var merged, new', part := Merge(before, es), Cleared(Pending(h, before, es), done), Restrict(before, Fixed(h, before));
    var after := NormalizedOn(merged, done);
    MergeFacts(before, es);
    FixedPart(h, before);
    forall id, b | id in after && Reads(after[id], b)
      ensures ReadsAsIn(part, new', id, b)
    {
      FewerReads(merged, done, id, b);
      if id in part {
        ReadsOwn(h, part, id, b);
      } else {
        PendingReads(h, before, es, done, id, b);
      }
    }
    ClearedKeys(Pending(h, before, es), done);
    Stacked(part, new', after);
  }

  lemma ClearedKeys(db: Db, done: set<ValueId>)
    ensures Cleared(db, done).Keys == db.Keys
  {
  }

  /** Rebuilding the entry of `id` may read `b`, within `low` for an entry of `low`, and as `high` says otherwise. */
  ghost predicate ReadsAsIn(low: Db, high: Db, id: ValueId, b: ValueId) {
    if id in low then b in low && Reads(low[id], b) else id in high && Reads(high[id], b)
  }

  /** Two well-founded stores, the lower one closed, stacked into one. */
  lemma Stacked(low: Db, high: Db, all: Db)
    requires Acyclic(low) && Acyclic(high) && all.Keys == low.Keys + high.Keys
    requires forall id, b :: id in all && Reads(all[id], b) ==> ReadsAsIn(low, high, id, b)
    ensures Acyclic(all)
  {
    hide Reads;
    var lower :| Ranked(low, lower);
    var upper :| Ranked(high, upper);
    var top := RankBound(low, lower);
    var rank := map id | id in all :: if id in low then lower[id] else top + upper[id];
    forall id, b | id in all && b in all && Reads(all[id], b)
      ensures rank[b] < rank[id]
    {
    }
    assert Ranked(all, rank);
  }

  predicate NoSkips(db: Db) {
    forall id :: id in db && db[id].delta.Some? ==> db[id].delta.value.skip == []
  }

  /** Some entry leads back to itself through the bases of entries of `db`. */
  ghost predicate Cyclic(db: Db) {
    exists id, k: nat :: k > 0 && Leads(db, id, id, k)
  }

  /** After exactly `n` base links from `id` comes an id that is no delta of `db`. */
  ghost predicate Leaves(db: Db, id: ValueId, n: nat)
    decreases n
  {
    if id in db && Chained(db[id]) then n > 0 && Leaves(db, db[id].delta.value.base, n - 1) else n == 0
  }

  lemma {:induction false} LeavesOnce(db: Db, id: ValueId, n: nat, k: nat)
    requires Leaves(db, id, n) && Leaves(db, id, k)
    ensures n == k
    decreases n
  {
    if n > 0 {
      LeavesOnce(db, db[id].delta.value.base, n - 1, k - 1);
    }
  }

  lemma MetAgain(db: Db, visited: set<ValueId>, id: ValueId)
    requires OnPath(db, visited, id)
    ensures id in visited ==> Cyclic(db)
  {
  }

  /** Following base links either leaves the entries or meets an entry again. */
  lemma {:induction false} LeavesOrCycles(db: Db, id: ValueId, visited: set<ValueId>) returns (n: nat)
    requires OnPath(db, visited, id) && !Cyclic(db)
    ensures Leaves(db, id, n)
    decreases db.Keys - visited
  {
    if id in db && Chained(db[id]) {
      MetAgain(db, visited, id);
      PathGrows(db, visited, id);
      var rest := LeavesOrCycles(db, db[id].delta.value.base, visited + {id});
      n := rest + 1;
    } else {
      n := 0;
    }
  }

  ghost function LeaveTime(db: Db, id: ValueId): nat {
    if exists n: nat :: Leaves(db, id, n) then var n: nat :| Leaves(db, id, n); n else 0
  }

  lemma LeaveTimeIs(db: Db, id: ValueId, n: nat)
    requires Leaves(db, id, n)
    ensures LeaveTime(db, id) == n
  {
    LeavesOnce(db, id, n, LeaveTime(db, id));
  }

  lemma {:induction false} RanksDropAlong(db: Db, rank: map<ValueId, nat>, a: ValueId, b: ValueId, k: nat)
    requires Ranked(db, rank) && Leads(db, a, b, k) && k > 0 && b in db
    ensures a in db && rank[b] < rank[a]
    decreases k
  {
    var base := db[a].delta.value.base;
    if k == 1 {
      assert Leads(db, base, b, 0);
    } else {
      RanksDropAlong(db, rank, base, b, k - 1);
    }
    assert Reads(db[a], base);
  }

  /** Entries without skip patches are well founded exactly when no base links run in a circle. */
  lemma AcyclicIff(db: Db)
    requires NoSkips(db)
    ensures Acyclic(db) <==> !Cyclic(db)
  {
    if Acyclic(db) && Cyclic(db) {
      var rank :| Ranked(db, rank);
      var id, k: nat :| k > 0 && Leads(db, id, id, k);
      RanksDropAlong(db, rank, id, id, k);
    }
    if !Cyclic(db) {
      var rank := map id | id in db :: LeaveTime(db, id);
      forall id, b | id in db && b in db && Reads(db[id], b)
        ensures rank[b] < rank[id]
      {
        var n := LeavesOrCycles(db, id, {});
        LeaveTimeIs(db, id, n);
        LeaveTimeIs(db, b, n - 1);
      }
      assert Ranked(db, rank);
    }
  }

  /** Deltas that wait carry no skip patches, so only arrivals can. */
  lemma PendingSkips(h: Hash, before: Db, es: Incoming)
    requires ValidDb(h, before)
    ensures NoSkips(Arrivals(before, es)) ==> NoSkips(Pending(h, before, es))
  {
    hide Mat, PlainValue;
    MergeFacts(before, es);
    forall id | id in Waiting(h, before)
      ensures before[id].delta.value.skip == []
    {
      assert EntrySound(h, Meaning(h, before), id, before[id]);
    }
  }

  /** The usual case, entries that were decoded: the store is well founded after the import exactly when the base links
      of the arrivals, and of deltas that waited, run in no circle. */
  lemma DecodedImportWellFoundedIff(h: Hash, before: Db, es: Incoming, done: set<ValueId>)
    requires ValidDb(h, before) && NoSkips(Arrivals(before, es))
    ensures Acyclic(NormalizedOn(Merge(before, es), done)) <==> !Cyclic(Pending(h, before, es))
    ensures Complete(h, before) ==> Pending(h, before, es) == Arrivals(before, es)
  {
    hide Acyclic, Cyclic, Sound, Complete, Mat;
    var pending := Pending(h, before, es);
    PendingSkips(h, before, es);
    ImportWellFoundedIff(h, before, es, done);
    AcyclicIff(pending);
    ClearingNothing(pending, done);
    if Complete(h, before) {
      NothingPending(h, before, es);
    }
  }

  /** A refused import whose arrivals form no circle leaves a store in working order, in which the old values stand and some
      of the arrivals may wait. */
  lemma ImportKeepsValid(h: Hash, before: Db, es: Incoming, done: set<ValueId>)
    requires ValidDb(h, before) && BoundedEntries(es)
    requires Acyclic(NormalizedOn(Merge(before, es), done)) && NoSkips(Cleared(Pending(h, before, es), done))
    ensures ValidDb(h, NormalizedOn(Merge(before, es), done))
    ensures Within(Meaning(h, before), Meaning(h, NormalizedOn(Merge(before, es), done)))
  {
    hide Mat, NormalizedOn, Sound, Acyclic, SkipsFit, PlainValue, Merge;
    var merged := Merge(before, es);
    var after, m := NormalizedOn(merged, done), Meaning(h, before);
    MergeFacts(before, es);
    forall x | x in before {
      NormalizedSame(merged, done, x);
    }
    MeaningStays(h, before, after);
    ValidIsBounded(h, before);
    MergeBounded(before, es);
    forall x | x in after
      ensures SkipsFit(Meaning(h, after), x, after[x])
      ensures after[x].kind != Delta ==> |after[x].bytes| < U64
    {
      NormalizedSame(merged, done, x);
      if x in Pending(h, before, es) {
        PendingSkipless(h, before, es, done, x, Meaning(h, after));
      } else {
        SettledSkips(h, before, m, merged, done, x);
        SkipsFitGrows(m, Meaning(h, after), x, after[x]);
      }
    }
    SkipsDecide(h, after);
  }

  lemma PendingSkipless(h: Hash, before: Db, es: Incoming, done: set<ValueId>, x: ValueId, m: Model)
    requires Acyclic(before) && x in Pending(h, before, es) && NoSkips(Cleared(Pending(h, before, es), done))
    ensures SkipsFit(m, x, NormalizedOn(Merge(before, es), done)[x])
  {
    hide Mat, HasChain, Merge, Waiting;
    var e := Cleared(Pending(h, before, es), done)[x];
    assert e.delta.Some? ==> e.delta.value.skip == [];
  }

  lemma SettledSkips(h: Hash, before: Db, m: Model, merged: Db, done: set<ValueId>, x: ValueId)
    requires Sound(h, before, m) && x in before && x in merged && merged[x] == before[x]
    ensures SkipsFit(m, x, NormalizedOn(merged, done)[x])
  {
    assert EntrySound(h, m, x, before[x]);
    NormalizingKeepsSound(h, m, merged, done, x);
  }

  /** What an import leaves, in one place. */
  lemma ImportLeaves(h: Hash, before: Db, part: Db, es: Incoming, done: set<ValueId>, valid: bool)
    requires IsPart(part, before) && ValidDb(h, part) && Complete(h, part)
    requires valid ==> ValidDb(h, before) && BoundedEntries(es)
    ensures var after := NormalizedOn(Merge(before, es), done);
      && Stands(h, part, after)
      && (valid && NoSkips(Arrivals(before, es)) ==> (Acyclic(after) <==> !Cyclic(Pending(h, before, es))))
      && (valid && NoSkips(Arrivals(before, es)) && Acyclic(after) ==>
            ValidDb(h, after) && Within(Meaning(h, before), Meaning(h, after)))
  {
    hide *;
    ImportNeverHarms(h, before, part, es, done);
    if valid {
      ValidIsAcyclic(h, before);
      if NoSkips(Arrivals(before, es)) {
        DecodedImportWellFoundedIff(h, before, es, done);
        PendingSkips(h, before, es);
        ClearedSkips(Pending(h, before, es), done);
        if Acyclic(NormalizedOn(Merge(before, es), done)) {
          ImportKeepsValid(h, before, es, done);
        }
      }
    }
  }

  lemma LoosenedIs(merged: Db, ids: seq<ValueId>)
    ensures Loosened(merged, ids) == NormalizedOn(merged, DepthsDone(merged, ids))
  {
  }

  lemma ValidIsAcyclic(h: Hash, db: Db)
    requires ValidDb(h, db)
    ensures Acyclic(db)
  {
  }

  lemma ClearedSkips(db: Db, done: set<ValueId>)
    requires NoSkips(db)
    ensures NoSkips(Cleared(db, done))
  {
  }

  lemma ClearingNothing(db: Db, done: set<ValueId>)
    requires NoSkips(db)
    ensures Acyclic(Cleared(db, done)) <==> Acyclic(db)
  {
    var c := Cleared(db, done);
    forall id, b | id in db
      ensures Reads(c[id], b) <==> Reads(db[id], b)
    {
    }
    if Acyclic(c) {
      var rank :| Ranked(c, rank);
      assert Ranked(db, rank);
    }
    if Acyclic(db) {
      var rank :| Ranked(db, rank);
      assert Ranked(c, rank);
    }
  }

  /** On a circle there is always a next delta: following base links from there never ends. */
  lemma {:induction false} CircleNeverEnds(db: Db, id: ValueId, k: nat, n: nat)
    requires k > 0 && Leads(db, id, id, k)
    ensures !Leaves(db, id, n)
    decreases n
  {
    if Leaves(db, id, n) {
      LeavesAfter(db, id, id, k, n);
      CircleNeverEnds(db, id, k, n - k);
    }
  }

  lemma {:induction false} LeavesAfter(db: Db, a: ValueId, b: ValueId, k: nat, n: nat)
    requires Leads(db, a, b, k) && Leaves(db, a, n)
    ensures k <= n && Leaves(db, b, n - k)
    decreases k
  {
    if k > 0 {
      LeavesAfter(db, db[a].delta.value.base, b, k - 1, n - 1);
    }
  }

  /******* Two deltas that are each other's base *******/

  const ID_A: ValueId := seq(16, _ => 1)
  const ID_B: ValueId := seq(16, _ => 2)

  function DeltaOn(base: ValueId): ValueEntry {
    ValueEntry(Delta, [], Some(DeltaEntry(base, 0, 0, [])))
  }

  const CIRCLE: Incoming := [(ID_A, DeltaOn(ID_B)), (ID_B, DeltaOn(ID_A))]

  lemma CircleIsRefused(h: Hash)
    ensures Arrivals(map[], CIRCLE) == map[ID_A := DeltaOn(ID_B), ID_B := DeltaOn(ID_A)]
    ensures Cyclic(Arrivals(map[], CIRCLE)) && !Acceptable(h, Merge(map[], CIRCLE))
    ensures forall done :: !Acyclic(NormalizedOn(Merge(map[], CIRCLE), done))
  {
    hide AllRebuild, Healthy, Mat;
    var db: Db := map[ID_A := DeltaOn(ID_B), ID_B := DeltaOn(ID_A)];
    assert ID_A[0] != ID_B[0];
    CircleMerged();
    assert Leads(db, ID_A, ID_A, 0) && Leads(db, ID_B, ID_A, 1);
    assert Leads(db, ID_A, ID_A, 2);
    NoChainThroughItself(db, ID_A, 2);
    EmptyIsHealthy(h);
    forall done
      ensures !Acyclic(NormalizedOn(Merge(map[], CIRCLE), done))
    {
      assert ValidDb(h, map[]) by { HealthyIsValid(h, map[]); }
      DecodedImportWellFoundedIff(h, map[], CIRCLE, done);
    }
  }

  lemma CircleMerged()
    ensures var db: Db := map[ID_A := DeltaOn(ID_B), ID_B := DeltaOn(ID_A)];
      Merge(map[], CIRCLE) == db && Arrivals(map[], CIRCLE) == db
  {
    hide DeltaOn;
    var none: Db := map[];
    var one: Db := none[ID_A := DeltaOn(ID_B)];
    var db := one[ID_B := DeltaOn(ID_A)];
    assert ID_A[0] != ID_B[0];
    var rest := CIRCLE[1..];
    assert rest == [(ID_B, DeltaOn(ID_A))] && rest[1..] == [];
    assert Merge(db, []) == db;
    assert Merge(one, rest) == Merge(db, rest[1..]);
    assert Merge(none, CIRCLE) == Merge(one, rest);
  }

  lemma HealthyIsValid(h: Hash, db: Db)
    requires Healthy(h, db)
    ensures ValidDb(h, db)
  {
  }
}

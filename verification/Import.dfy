/** Which collections of entries a store accepts from outside, in any order, and what they mean once accepted. */
module Import {
  import opened Wrappers
  import opened Codec
  import opened Patch
  import opened ValueGraph
  import opened Compaction

  ghost predicate HasChain(db: Db, id: ValueId) {
    exists n: nat :: ChainLen(db, id, n)
  }

  lemma ChainShows(db: Db, id: ValueId, n: nat)
    requires ChainLen(db, id, n)
    ensures HasChain(db, id)
  {
  }

  /** Whether an id has a chain, one link at a time. */
  lemma ChainStep(db: Db, id: ValueId)
    ensures HasChain(db, id) <==>
      id in db && (db[id].kind != Delta || (db[id].delta.Some? && HasChain(db, db[id].delta.value.base)))
  {
    if HasChain(db, id) {
      var n: nat :| ChainLen(db, id, n);
      if Chained(db[id]) {
        ChainShows(db, db[id].delta.value.base, n - 1);
      }
    }
    if id in db && db[id].kind != Delta {
      ChainShows(db, id, 0);
    }
    if id in db && Chained(db[id]) && HasChain(db, db[id].delta.value.base) {
      var n: nat :| ChainLen(db, db[id].delta.value.base, n);
      ChainShows(db, id, n + 1);
    }
  }

  /** From every id, base links reach a whole value: no cycle, no missing base, no delta without its record. */
  ghost predicate AllChains(db: Db) {
    forall id :: id in db ==> HasChain(db, id)
  }

  ghost function DepthOf(db: Db, id: ValueId): nat {
    if HasChain(db, id) then var n: nat :| ChainLen(db, id, n); n else 0
  }

  lemma DepthOfIs(db: Db, id: ValueId, n: nat)
    requires ChainLen(db, id, n)
    ensures DepthOf(db, id) == n
  {
    ChainLenUnique(db, id, n, DepthOf(db, id));
  }

  /** A loaded entry keeps its patch but gets a recomputed depth and loses its skip patches. */
  function WithDepth(e: ValueEntry, depth: nat): ValueEntry {
    WithSkips(e, depth, [])
  }

  ghost function NormalizedOn(db: Db, ids: set<ValueId>): (r: Db)
    ensures r.Keys == db.Keys
  {
    map id | id in db :: if id in ids then WithDepth(db[id], DepthOf(db, id)) else db[id]
  }

  ghost function Normalized(db: Db): (r: Db)
    ensures r.Keys == db.Keys
  {
    NormalizedOn(db, db.Keys)
  }

  /** The two stores have the same kinds and base links. */
  ghost predicate SameLinks(a: Db, b: Db) {
    && a.Keys == b.Keys
    && forall id :: id in a ==> a[id].kind == b[id].kind && Chained(a[id]) == Chained(b[id])
                                && (Chained(a[id]) ==> a[id].delta.value.base == b[id].delta.value.base)
  }

  lemma {:induction false} SameLinksSameChains(a: Db, b: Db, id: ValueId, n: nat)
    requires SameLinks(a, b)
    ensures ChainLen(a, id, n) <==> ChainLen(b, id, n)
    decreases n
  {
    if id in a && n > 0 && Chained(a[id]) {
      SameLinksSameChains(a, b, a[id].delta.value.base, n - 1);
    }
  }

  lemma NormalizedKeepsChains(db: Db, ids: set<ValueId>, id: ValueId, n: nat)
    ensures ChainLen(NormalizedOn(db, ids), id, n) <==> ChainLen(db, id, n)
  {
    SameLinksSameChains(NormalizedOn(db, ids), db, id, n);
  }

  lemma HasChainSurvives(db: Db, ids: set<ValueId>, id: ValueId)
    ensures HasChain(NormalizedOn(db, ids), id) <==> HasChain(db, id)
  {
    forall n: nat {
      NormalizedKeepsChains(db, ids, id, n);
    }
    if HasChain(db, id) {
      var n: nat :| ChainLen(db, id, n);
      ChainShows(NormalizedOn(db, ids), id, n);
    }
  }

  lemma NormalizedAcyclic(db: Db)
    requires AllChains(db)
    ensures Acyclic(Normalized(db))
  {
    var db' := Normalized(db);
    var rank := map id | id in db :: DepthOf(db, id);
    forall id, b | id in db' && b in db' && Reads(db'[id], b)
      ensures rank[b] < rank[id]
    {
      assert HasChain(db, id);
      var n: nat :| ChainLen(db, id, n);
      DepthOfIs(db, id, n);
      DepthOfIs(db, b, n - 1);
    }
    assert Ranked(db', rank);
  }

  /** Every entry rebuilds to bytes of the declared length that hash to its id. */
  ghost predicate AllRebuild(h: Hash, db: Db)
    requires Acyclic(db)
  {
    forall id :: id in db ==> Mat(h, db, id, false).Ok?
  }

  /** The entries a store accepts: well-founded chains, and every delta rebuilds. */
  ghost predicate Acceptable(h: Hash, db: Db) {
    AllChains(db) && (NormalizedAcyclic(db); AllRebuild(h, Normalized(db)))
  }

  lemma NormalizedSame(db: Db, ids: set<ValueId>, id: ValueId)
    requires id in db
    ensures SamePlain(db[id], NormalizedOn(db, ids)[id])
    ensures id in ids && Chained(db[id]) ==> NormalizedOn(db, ids)[id].delta.value.skip == []
    ensures id !in ids ==> NormalizedOn(db, ids)[id] == db[id]
  {
    hide HasChain;
  }

  lemma AcceptedIsSound(h: Hash, db: Db)
    requires Acceptable(h, db) && BoundedDb(db)
    ensures ValidDb(h, Normalized(db)) && Meaning(h, Normalized(db)).Keys == db.Keys
  {
    hide EntrySound, Mat, NormalizedOn, Sound, PlainValue;
    NormalizedAcyclic(db);
    forall id | id in db {
      NormalizedSame(db, db.Keys, id);
    }
    SkipsDecide(h, Normalized(db));
  }

  /** Entries are acceptable exactly when, with their skip patches dropped, they are well founded and each has a value. */
  lemma AcceptableIff(h: Hash, db: Db)
    ensures Acceptable(h, db) <==> Acyclic(Normalized(db)) && Meaning(h, Normalized(db)).Keys == db.Keys
  {
    hide Mat, NormalizedOn;
    if Acyclic(Normalized(db)) && Meaning(h, Normalized(db)).Keys == db.Keys {
      forall id | id in db
        ensures HasChain(db, id)
      {
        assert id in Meaning(h, Normalized(db));
        PlainStepsAreChainLen(h, Normalized(db), id);
        var n := Mat(h, Normalized(db), id, false).value.steps;
        NormalizedKeepsChains(db, db.Keys, id, n);
        ChainShows(db, id, n);
      }
    }
    if Acceptable(h, db) {
      NormalizedAcyclic(db);
    }
  }

  lemma NormalizedEntry(db: Db, id: ValueId)
    requires id in db
    ensures var e := Normalized(db)[id];
      e.bytes == db[id].bytes && e.kind == db[id].kind && (e.delta.Some? ==> e.delta.value.skip == [])
  {
  }

  lemma NormalizedDepthExact(db: Db, id: ValueId, n: nat)
    requires ChainLen(Normalized(db), id, n) && Chained(db[id])
    ensures Normalized(db)[id].delta.value.depth == n
  {
    NormalizedKeepsChains(db, db.Keys, id, n);
    DepthOfIs(db, id, n);
  }

  /** Once accepted, a collection of entries is a store in working order that gives every id a value,
      with exact depths and with every delta hashing to its id. */
  lemma AcceptedIsHealthy(h: Hash, db: Db)
    requires Acceptable(h, db) && BoundedDb(db)
    ensures Healthy(h, Normalized(db)) && Meaning(h, Normalized(db)).Keys == db.Keys
    ensures forall id, n: nat :: ChainLen(Normalized(db), id, n) && Chained(db[id]) ==>
      Normalized(db)[id].delta.value.depth == n
    ensures forall id :: id in db && Chained(db[id]) ==> h(Meaning(h, Normalized(db))[id]) == id
  {
    hide ApplyPatch, Mat, Acceptable, BoundedDb;
    AcceptedIsSound(h, db);
    var db' := Normalized(db);
    var m := Meaning(h, db');
    forall id, n: nat | ChainLen(db', id, n) && Chained(db'[id])
      ensures n == db'[id].delta.value.depth
    {
      NormalizedDepthExact(db, id, n);
    }
    forall id | id in db && Chained(db[id])
      ensures h(m[id]) == id
    {
      assert EntrySound(h, m, id, db'[id]);
    }
  }

  /** Loading checks the hash of deltas only: every accepted id is the hash of its value exactly when that holds of the
      entries that came in whole. */
  lemma AcceptedHashesIff(h: Hash, db: Db)
    requires Acceptable(h, db) && BoundedDb(db)
    ensures Acyclic(Normalized(db)) && Meaning(h, Normalized(db)).Keys == db.Keys
    ensures (forall id :: id in db ==> h(Meaning(h, Normalized(db))[id]) == id)
      <==> (forall id :: id in db && db[id].kind != Delta ==> h(db[id].bytes) == id)
  {
    hide ApplyPatch, Mat, Normalized;
    AcceptedIsHealthy(h, db);
    AcceptedIsSound(h, db);
    var m, db' := Meaning(h, Normalized(db)), Normalized(db);
    forall id | id in db
      ensures db[id].kind != Delta ==> m[id] == db[id].bytes
      ensures db[id].kind == Delta ==> Chained(db[id])
    {
      NormalizedEntry(db, id);
      assert EntrySound(h, m, id, db'[id]);
      assert HasChain(db, id);
      ChainStep(db, id);
    }
  }

  /** A whole entry is accepted under an id that is not the hash of its bytes, and is read back under it. */
  lemma ForgedCellAccepted(h: Hash) returns (id: ValueId, db: Db)
    ensures db == map[id := Whole(Cell, [7])] && h([7]) != id
    ensures Acceptable(h, db) && Acyclic(Normalized(db)) && Meaning(h, Normalized(db)) == map[id := [7]]
  {
    hide Mat;
    id := if h([7])[0] == 0 then seq(16, _ => 1) else seq(16, _ => 0);
    assert h([7])[0] != id[0];
    db := map[id := Whole(Cell, [7])];
    ChainShows(db, id, 0);
    NormalizedAcyclic(db);
    assert Normalized(db) == db;
    MeaningIs(h, db, map[id := [7]]);
    AcceptableIff(h, db);
  }

  /** Values stored before keep their bytes when more entries are accepted beside them. */
  lemma AcceptedKeepsOld(h: Hash, old': Db, db: Db)
    requires Acyclic(old') && Acceptable(h, db)
    requires old'.Keys <= db.Keys && forall x :: x in old' ==> db[x] == old'[x]
    ensures Acyclic(Normalized(db)) && Within(Meaning(h, old'), Meaning(h, Normalized(db)))
  {
    hide Mat, NormalizedOn, Acceptable;
    AcceptableIff(h, db);
    forall x | x in old' {
      NormalizedSame(db, db.Keys, x);
    }
    MeaningStays(h, old', Normalized(db));
  }

  /******* Cycle detection *******/

  /** Following `k` base links from `a` arrives at `b`. */
  ghost predicate Leads(db: Db, a: ValueId, b: ValueId, k: nat)
    decreases k
  {
    if k == 0 then a == b else a in db && Chained(db[a]) && Leads(db, db[a].delta.value.base, b, k - 1)
  }

  lemma {:induction false} LeadsFurther(db: Db, a: ValueId, b: ValueId, k: nat)
    requires Leads(db, a, b, k) && b in db && Chained(db[b])
    ensures Leads(db, a, db[b].delta.value.base, k + 1)
    decreases k
  {
    if k > 0 {
      LeadsFurther(db, db[a].delta.value.base, b, k - 1);
    } else {
      assert Leads(db, db[b].delta.value.base, db[b].delta.value.base, 0);
    }
  }

  lemma {:induction false} LeadsShortens(db: Db, a: ValueId, b: ValueId, k: nat, n: nat)
    requires Leads(db, a, b, k) && ChainLen(db, a, n)
    ensures k <= n && ChainLen(db, b, n - k)
    decreases k
  {
    if k > 0 {
      LeadsShortens(db, db[a].delta.value.base, b, k - 1, n - 1);
    }
  }

  /** An id met again while its own chain is being followed has no chain length. */
  lemma NoChainThroughItself(db: Db, id: ValueId, k: nat)
    requires Leads(db, id, id, k) && k > 0
    ensures !HasChain(db, id)
  {
    forall n: nat
      ensures !ChainLen(db, id, n)
    {
      if ChainLen(db, id, n) {
        LeadsShortens(db, id, id, k, n);
        ChainLenUnique(db, id, n, n - k);
      }
    }
  }

  /** Depths already worked out. */
  ghost predicate MemoOk(db: Db, memo: map<ValueId, nat>) {
    forall id :: id in memo ==> ChainLen(db, id, memo[id])
  }

  /** Every id being visited leads to `id` in at least one step. */
  ghost predicate OnPath(db: Db, visiting: set<ValueId>, id: ValueId) {
    forall v :: v in visiting ==> exists k: nat :: k > 0 && Leads(db, v, id, k)
  }

  lemma PathGrows(db: Db, visiting: set<ValueId>, id: ValueId)
    requires OnPath(db, visiting, id) && id in db && Chained(db[id])
    ensures OnPath(db, visiting + {id}, db[id].delta.value.base)
  {
    var base := db[id].delta.value.base;
    forall v | v in visiting + {id}
      ensures exists k: nat :: k > 0 && Leads(db, v, base, k)
    {
      if v in visiting {
        var k: nat :| k > 0 && Leads(db, v, id, k);
        LeadsFurther(db, v, id, k);
      } else {
        assert Leads(db, id, id, 0);
        LeadsFurther(db, id, id, 0);
      }
    }
  }

  lemma NormalizeOneMore(db: Db, ids: set<ValueId>, id: ValueId, n: nat)
    requires ChainLen(db, id, n)
    ensures NormalizedOn(db, ids + {id}) == NormalizedOn(db, ids)[id := WithDepth(NormalizedOn(db, ids)[id], n)]
  {
    DepthOfIs(db, id, n);
  }

  lemma NormalizeNone(db: Db)
    ensures NormalizedOn(db, {}) == db
  {
  }

  lemma MemoSurvives(db: Db, ids: set<ValueId>, memo: map<ValueId, nat>)
    ensures MemoOk(NormalizedOn(db, ids), memo) <==> MemoOk(db, memo)
  {
    forall id | id in memo {
      NormalizedKeepsChains(db, ids, id, memo[id]);
    }
  }

  /******* Merging a list of entries *******/

  type Incoming = seq<(ValueId, ValueEntry)>

  /** The store after the entries of `es` whose ids are new, the first one for each id winning. */
  function Merge(db: Db, es: Incoming): Db
    decreases |es|
  {
    if es == [] then db
    else Merge(if es[0].0 in db then db else db[es[0].0 := es[0].1], es[1..])
  }

  predicate BoundedEntries(es: Incoming) {
    forall i :: 0 <= i < |es| ==> |es[i].1.bytes| < U64
  }

  lemma {:induction false} MergeFacts(db: Db, es: Incoming)
    ensures Merge(db, es).Keys >= db.Keys
    ensures forall id :: id in db ==> Merge(db, es)[id] == db[id]
    ensures forall i :: 0 <= i < |es| ==> es[i].0 in Merge(db, es)
    ensures forall id :: id in Merge(db, es) && id !in db ==> exists i :: 0 <= i < |es| && es[i] == (id, Merge(db, es)[id])
    decreases |es|
  {
    if es != [] {
      var db' := if es[0].0 in db then db else db[es[0].0 := es[0].1];
      MergeFacts(db', es[1..]);
      assert forall i :: 0 < i < |es| ==> es[i] == es[1..][i - 1];
      forall id | id in Merge(db, es) && id !in db
        ensures exists i :: 0 <= i < |es| && es[i] == (id, Merge(db, es)[id])
      {
        if id in db' {
          assert es[0] == (id, Merge(db, es)[id]);
        } else {
          var j :| 0 <= j < |es[1..]| && es[1..][j] == (id, Merge(db', es[1..])[id]);
          assert es[j + 1] == (id, Merge(db, es)[id]);
        }
      }
    }
  }

  lemma MergeBounded(db: Db, es: Incoming)
    requires BoundedDb(db) && BoundedEntries(es)
    ensures BoundedDb(Merge(db, es))
  {
    MergeFacts(db, es);
  }

  predicate DistinctIds(es: Incoming) {
    forall i, j :: 0 <= i < j < |es| ==> es[i].0 != es[j].0
  }

  /** Accepting entries beside a store in working order keeps every value it had, and leaves nothing waiting. */
  lemma ImportKeeps(h: Hash, before: Db, es: Incoming)
    requires ValidDb(h, before) && BoundedEntries(es)
    ensures Acceptable(h, Merge(before, es)) ==> var after := Normalized(Merge(before, es));
      && Healthy(h, after) && Meaning(h, after).Keys == after.Keys
      && Within(Meaning(h, before), Meaning(h, after))
  {
    hide Mat, Acceptable, Normalized;
    var merged := Merge(before, es);
    ValidIsBounded(h, before);
    MergeBounded(before, es);
    MergeFacts(before, es);
    if Acceptable(h, merged) {
      AcceptedIsHealthy(h, merged);
      AcceptedKeepsOld(h, before, merged);
    }
  }
}

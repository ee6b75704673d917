/** What an import does depends on the values stored and the deltas that wait, not on how the values are stored. */
module ImportMeaning {
  import opened Wrappers
  import opened Codec
  import opened Patch
  import opened ValueGraph
  import opened Compaction
  import opened Import
  import opened PartialStore

  lemma FewerReadsAcyclic(db: Db, other: Db)
    requires Acyclic(db) && other.Keys == db.Keys
    requires forall id, b :: id in db && Reads(other[id], b) ==> Reads(db[id], b)
    ensures Acyclic(other)
  {
    hide Reads;
    var rank :| Ranked(db, rank);
    assert Ranked(other, rank);
  }

  /** The store that holds every value whole, and every delta without a value as it came. */
  ghost function Ideal(h: Hash, db: Db): (r: Db)
    requires Acyclic(db)
    ensures r.Keys == db.Keys && Acyclic(r)
  {
    var r := map id | id in db :: if id in Meaning(h, db) then Whole(Cell, Meaning(h, db)[id]) else WithDepth(db[id], 0);
    FewerReadsAcyclic(db, r);
    r
  }

  /** `other` holds the values of `db` in whatever form, and its deltas without a value but for depths. */
  ghost predicate HoldsSame(h: Hash, db: Db, other: Db)
    requires Acyclic(db)
  {
    && other.Keys == db.Keys
    && forall id :: id in db ==>
         if id in Meaning(h, db) then EntrySound(h, Meaning(h, db), id, other[id])
         else WithDepth(other[id], 0) == WithDepth(db[id], 0) && (Chained(other[id]) ==> other[id].delta.value.skip == [])
  }

  lemma WithDepthSame(e: ValueEntry, e': ValueEntry)
    requires WithDepth(e, 0) == WithDepth(e', 0)
    ensures SamePlain(e, e')
  {
  }

  lemma SamePlainValue(h: Hash, m: Model, id: ValueId, e: ValueEntry, e': ValueEntry)
    requires SamePlain(e, e')
    ensures PlainValue(h, m, id, e') == PlainValue(h, m, id, e)
  {
  }

  /** Such a store is in working order too, and it means the same. */
  lemma SameIdeal(h: Hash, db: Db, other: Db)
    requires ValidDb(h, db) && Acyclic(other) && HoldsSame(h, db, other)
    ensures ValidDb(h, other) && Meaning(h, other) == Meaning(h, db) && Ideal(h, other) == Ideal(h, db)
  {
    hide Mat, PlainValue, Rebuilds;
    var m := Meaning(h, db);
    forall id | id in other
      ensures EntrySound(h, m, id, other[id])
    {
      assert EntrySound(h, m, id, db[id]);
      if id !in m {
        WithDepthSame(other[id], db[id]);
        SamePlainValue(h, m, id, other[id], db[id]);
      }
    }
    MeaningIs(h, other, m);
  }

  /** The ideal store is a store in working order that means the same, and its own ideal. */
  lemma IdealMeans(h: Hash, db: Db)
    requires ValidDb(h, db)
    ensures var i := Ideal(h, db);
      ValidDb(h, i) && Meaning(h, i) == Meaning(h, db) && Ideal(h, i) == i && NoSkips(i)
  {
    hide Mat, Rebuilds;
    var i, m := Ideal(h, db), Meaning(h, db);
    forall id | id in db
      ensures id in m ==> EntrySound(h, m, id, i[id])
      ensures id !in m ==> db[id].kind == Delta
    {
      assert EntrySound(h, m, id, db[id]);
    }
    SameIdeal(h, db, i);
  }

  /** Two stores with the same ideal: the same ids, the same values, and the same deltas without a value. */
  lemma SameIdealTells(h: Hash, a: Db, b: Db)
    requires ValidDb(h, a) && ValidDb(h, b) && Ideal(h, a) == Ideal(h, b)
    ensures a.Keys == b.Keys && Meaning(h, a) == Meaning(h, b)
    ensures forall id :: id in a && id !in Meaning(h, a) ==> WithDepth(a[id], 0) == WithDepth(b[id], 0)
  {
    hide Mat, Rebuilds;
    forall id | id in a
      ensures id in Meaning(h, a) <==> Ideal(h, a)[id].kind != Delta
      ensures id in Meaning(h, b) <==> Ideal(h, b)[id].kind != Delta
      ensures id in Meaning(h, a) && id in Meaning(h, b) ==> Meaning(h, a)[id] == Meaning(h, b)[id]
    {
      assert EntrySound(h, Meaning(h, a), id, a[id]) && EntrySound(h, Meaning(h, b), id, b[id]);
    }
    assert Meaning(h, a).Keys == Meaning(h, b).Keys;
  }

  /******* Storing a value *******/

  /** Stored whole or as a delta, a value does the same to the ideal store. */
  lemma SamePut(h: Hash, a: Db, b: Db, id: ValueId, e: ValueEntry, kind: ValueKind, bytes: Bytes)
    requires ValidDb(h, a) && ValidDb(h, b) && Ideal(h, a) == Ideal(h, b) && id !in a
    requires StoredInto(h, a, id, e, ValueOf(kind, bytes)) && StoredInto(h, b, id, Whole(kind, bytes), ValueOf(kind, bytes))
    requires e == Whole(kind, bytes) || ValueOf(kind, bytes).Some?
    ensures Ideal(h, a[id := e]) == Ideal(h, b[id := Whole(kind, bytes)])
  {
    hide Mat, Rebuilds, Healthy, Awaited, Acyclic;
    SameIdealTells(h, a, b);
    var a', b' := a[id := e], b[id := Whole(kind, bytes)];
    var m, m' := Meaning(h, b), Meaning(h, a');
    forall x | x in a'
      ensures x in m' ==> EntrySound(h, m', x, b'[x])
      ensures x !in m' ==> WithDepth(b'[x], 0) == WithDepth(a'[x], 0) && (Chained(b'[x]) ==> b'[x].delta.value.skip == [])
    {
      if x != id {
        assert EntrySound(h, m, x, b[x]) && EntrySound(h, m', x, a'[x]);
        OtherSound(h, m, m', x, a[x], b[x]);
      }
    }
    SameIdeal(h, a', b');
  }

  /** An entry sound for the old values is sound for the new ones: it has a value still, or it is the same delta. */
  lemma OtherSound(h: Hash, m: Model, m': Model, x: ValueId, e: ValueEntry, other: ValueEntry)
    requires EntrySound(h, m, x, other) && Within(m, m') && EntrySound(h, m', x, e)
    requires x !in m ==> WithDepth(e, 0) == WithDepth(other, 0)
    ensures EntrySound(h, m', x, other)
  {
    SkipsFitGrows(m, m', x, other);
    if x !in m {
      WithDepthSame(e, other);
      SamePlainValue(h, m', x, e, other);
    }
  }

  /******* Importing *******/

  lemma {:induction false} MergeSame(a: Db, b: Db, es: Incoming)
    requires a.Keys == b.Keys
    ensures Merge(a, es).Keys == Merge(b, es).Keys
    ensures forall id :: id in Merge(a, es) && id !in a ==> Merge(a, es)[id] == Merge(b, es)[id]
    decreases |es|
  {
    if es != [] {
      var (id, e) := es[0];
      if id in a {
        MergeSame(a, b, es[1..]);
      } else {
        MergeSame(a[id := e], b[id := e], es[1..]);
        MergeFacts(a[id := e], es[1..]);
        MergeFacts(b[id := e], es[1..]);
      }
    }
  }

  /** The same deltas, with the same base links. */
  ghost predicate SameDeltas(a: Db, b: Db) {
    forall id ::
      && (id in a && Chained(a[id]) <==> id in b && Chained(b[id]))
      && (id in a && Chained(a[id]) && id in b && Chained(b[id]) ==> a[id].delta.value.base == b[id].delta.value.base)
  }

  lemma {:induction false} LeadsSame(a: Db, b: Db, x: ValueId, y: ValueId, k: nat)
    requires SameDeltas(a, b) && Leads(a, x, y, k)
    ensures Leads(b, x, y, k)
    decreases k
  {
    if k > 0 {
      LeadsSame(a, b, a[x].delta.value.base, y, k - 1);
    }
  }

  lemma CyclicSame(a: Db, b: Db)
    requires SameDeltas(a, b)
    ensures Cyclic(a) <==> Cyclic(b)
  {
    if Cyclic(a) {
      var id, k: nat :| k > 0 && Leads(a, id, id, k);
      LeadsSame(a, b, id, id, k);
    }
    if Cyclic(b) {
      var id, k: nat :| k > 0 && Leads(b, id, id, k);
      LeadsSame(b, a, id, id, k);
    }
  }

  /** The import drops, or never had, the skip patches of every delta it may leave without a value. */
  ghost predicate Skipless(h: Hash, before: Db, es: Incoming, done: set<ValueId>)
    requires Acyclic(before)
  {
    NoSkips(Cleared(Pending(h, before, es), done))
  }

  /** An entry is a pending delta when it comes in as one, or was there as one and has no value. */
  lemma PendingDelta(h: Hash, before: Db, es: Incoming, done: set<ValueId>, id: ValueId)
    requires Acyclic(before)
    ensures var merged, pending := Merge(before, es), Cleared(Pending(h, before, es), done);
      && (id in pending && Chained(pending[id]) <==>
            id in merged && Chained(merged[id]) && (id in before ==> id !in Meaning(h, before)))
      && (id in pending && Chained(pending[id]) ==> pending[id].delta.value.base == merged[id].delta.value.base)
  {
    hide Mat, Merge;
    MergeFacts(before, es);
  }

  /** The deltas an import may tie together are the same over stores with the same ideal. */
  lemma SamePending(h: Hash, a: Db, b: Db, es: Incoming, done: set<ValueId>, done': set<ValueId>)
    requires ValidDb(h, a) && ValidDb(h, b) && Ideal(h, a) == Ideal(h, b)
    ensures SameDeltas(Cleared(Pending(h, a, es), done), Cleared(Pending(h, b, es), done'))
  {
    hide Mat, Sound, Cleared, Pending, Merge, Meaning, Ideal;
    SameIdealTells(h, a, b);
    MergeSame(a, b, es);
    MergeFacts(a, es);
    MergeFacts(b, es);
    forall id
      ensures id in a && id !in Meaning(h, a) ==> SamePlain(a[id], b[id])
      ensures var low, high := Cleared(Pending(h, a, es), done), Cleared(Pending(h, b, es), done');
        && (id in low && Chained(low[id]) <==> id in high && Chained(high[id]))
        && (id in low && Chained(low[id]) && id in high && Chained(high[id]) ==>
              low[id].delta.value.base == high[id].delta.value.base)
    {
      PendingDelta(h, a, es, done, id);
      PendingDelta(h, b, es, done', id);
      if id in a && id !in Meaning(h, a) {
        WithDepthSame(a[id], b[id]);
      }
    }
  }

  lemma SameCircles(h: Hash, a: Db, b: Db, es: Incoming, done: set<ValueId>, done': set<ValueId>)
    requires ValidDb(h, a) && ValidDb(h, b) && Ideal(h, a) == Ideal(h, b)
    requires Skipless(h, a, es, done) && Skipless(h, b, es, done')
    ensures Acyclic(NormalizedOn(Merge(a, es), done)) <==> Acyclic(NormalizedOn(Merge(b, es), done'))
  {
    hide Acyclic, Mat, Sound, Cyclic, SameDeltas, Merge, NoSkips;
    var low, high := Cleared(Pending(h, a, es), done), Cleared(Pending(h, b, es), done');
    ImportWellFoundedIff(h, a, es, done);
    ImportWellFoundedIff(h, b, es, done');
    AcyclicIff(low);
    AcyclicIff(high);
    SamePending(h, a, b, es, done, done');
    CyclicSame(low, high);
  }

  lemma NormalizedBare(db: Db, done: set<ValueId>, id: ValueId)
    requires id in db
    ensures WithDepth(NormalizedOn(db, done)[id], 0) == WithDepth(db[id], 0)
  {
    hide HasChain;
  }

  /** An entry after the import over `b` is sound for what the import over `a` means. */
  lemma ImportedSound(h: Hash, a: Db, b: Db, es: Incoming, done: set<ValueId>, done': set<ValueId>, id: ValueId)
    requires ValidDb(h, a) && ValidDb(h, b) && Ideal(h, a) == Ideal(h, b) && Skipless(h, b, es, done')
    requires ValidDb(h, NormalizedOn(Merge(a, es), done)) && id in Merge(a, es)
    requires Within(Meaning(h, a), Meaning(h, NormalizedOn(Merge(a, es), done)))
    ensures id in Merge(b, es)
    ensures EntrySound(h, Meaning(h, NormalizedOn(Merge(a, es), done)), id, NormalizedOn(Merge(b, es), done')[id])
    ensures WithDepth(NormalizedOn(Merge(b, es), done')[id], 0) == WithDepth(NormalizedOn(Merge(a, es), done)[id], 0)
      || id in Meaning(h, a)
  {
    hide Mat, Merge, NormalizedOn, Ideal, Meaning, Acyclic, EntrySound, Skipless, Pending, HasChain;
    var after, after' := NormalizedOn(Merge(a, es), done), NormalizedOn(Merge(b, es), done');
    var m, m' := Meaning(h, a), Meaning(h, after);
    SameIdealTells(h, a, b);
    MergeSame(a, b, es);
    MergeFacts(a, es);
    MergeFacts(b, es);
    NormalizedBare(Merge(a, es), done, id);
    NormalizedBare(Merge(b, es), done', id);
    assert EntrySound(h, m', id, after[id]);
    if id in b {
      assert EntrySound(h, m, id, b[id]);
      NormalizingKeepsSound(h, m, Merge(b, es), done', id);
      OtherSound(h, m, m', id, after[id], after'[id]);
    } else {
      ArrivalPends(h, b, es, id);
      assert Skipless(h, b, es, done');
      ArrivalSound(h, b, es, done', m', id, after[id]);
    }
  }

  lemma ArrivalPends(h: Hash, before: Db, es: Incoming, id: ValueId)
    requires Acyclic(before) && id in Merge(before, es) && id !in before
    ensures id in Pending(h, before, es)
  {
    hide Mat, Merge;
  }

  lemma ArrivalSound(h: Hash, before: Db, es: Incoming, done: set<ValueId>, m: Model, id: ValueId, e: ValueEntry)
    requires Acyclic(before) && id in Pending(h, before, es) && Skipless(h, before, es, done) && EntrySound(h, m, id, e)
    requires id in Merge(before, es)
    requires WithDepth(e, 0) == WithDepth(NormalizedOn(Merge(before, es), done)[id], 0)
    ensures EntrySound(h, m, id, NormalizedOn(Merge(before, es), done)[id])
  {
    hide Mat, Merge, NormalizedOn, Pending, PlainValue;
    var e' := NormalizedOn(Merge(before, es), done)[id];
    PendingSkipless(h, before, es, done, id, m);
    WithDepthSame(e, e');
    SamePlainValue(h, m, id, e, e');
  }

  /** Imports into two stores with the same ideal: both or neither run in a circle, and if they do not, both stores are in
      working order and have the same ideal again. */
  lemma SameImport(h: Hash, a: Db, b: Db, es: Incoming, done: set<ValueId>, done': set<ValueId>)
    requires ValidDb(h, a) && ValidDb(h, b) && Ideal(h, a) == Ideal(h, b) && BoundedEntries(es)
    requires Skipless(h, a, es, done) && Skipless(h, b, es, done')
    ensures var after, after' := NormalizedOn(Merge(a, es), done), NormalizedOn(Merge(b, es), done');
      && (Acyclic(after) <==> Acyclic(after'))
      && (Acyclic(after) ==>
            && ValidDb(h, after) && ValidDb(h, after') && Within(Meaning(h, a), Meaning(h, after))
            && Meaning(h, after') == Meaning(h, after) && Ideal(h, after') == Ideal(h, after))
  {
    hide Mat, Merge, NormalizedOn, Ideal, Meaning, Acyclic, EntrySound, Pending, Sound, SkipsFit;
    var after, after' := NormalizedOn(Merge(a, es), done), NormalizedOn(Merge(b, es), done');
    SameCircles(h, a, b, es, done, done');
    if Acyclic(after) {
      ImportKeepsValid(h, a, es, done);
      SameIdealTells(h, a, b);
      MergeSame(a, b, es);
      forall id | id in after
        ensures EntrySound(h, Meaning(h, after), id, after'[id])
        ensures id !in Meaning(h, after) ==>
          WithDepth(after'[id], 0) == WithDepth(after[id], 0)
          && (Chained(after'[id]) ==> after'[id].delta.value.skip == [])
      {
        ImportedSound(h, a, b, es, done, done', id);
        NoSkipsWaiting(h, Meaning(h, after), id, after'[id]);
      }
      SameIdeal(h, after, after');
    }
  }

  lemma NoSkipsWaiting(h: Hash, m: Model, id: ValueId, e: ValueEntry)
    requires EntrySound(h, m, id, e)
    ensures id !in m && Chained(e) ==> e.delta.value.skip == []
  {
  }

  /** Whether an import is accepted is the same over both. */
  lemma SameAcceptance(h: Hash, a: Db, b: Db, es: Incoming)
    requires ValidDb(h, a) && ValidDb(h, b) && Ideal(h, a) == Ideal(h, b) && BoundedEntries(es)
    ensures Acceptable(h, Merge(a, es)) <==> Acceptable(h, Merge(b, es))
  {
    hide Mat, Merge, NormalizedOn, Ideal, Meaning, Acyclic, Acceptable, Sound, Skipless;
    AllSkipless(h, a, es);
    AllSkipless(h, b, es);
    AcceptableIff(h, Merge(a, es));
    AcceptableIff(h, Merge(b, es));
    SameIdealTells(h, a, b);
    MergeSame(a, b, es);
    SameImport(h, a, b, es, Merge(a, es).Keys, Merge(b, es).Keys);
  }

  lemma AllSkipless(h: Hash, before: Db, es: Incoming)
    requires Acyclic(before)
    ensures Skipless(h, before, es, Merge(before, es).Keys)
  {
    hide Mat, Merge;
  }

  lemma DecodedSkipless(h: Hash, before: Db, es: Incoming, done: set<ValueId>)
    requires ValidDb(h, before) && NoSkips(Arrivals(before, es))
    ensures Skipless(h, before, es, done)
  {
    hide Mat, Merge, Sound, Pending;
    PendingSkips(h, before, es);
  }

  /** Over the ideal store a circle is one of the whole merged store. */
  lemma IdealCircles(h: Hash, db: Db, es: Incoming)
    requires ValidDb(h, db)
    ensures Acyclic(Normalized(Merge(Ideal(h, db), es))) <==> !Cyclic(Merge(Ideal(h, db), es))
  {
    hide Mat, Merge, Sound, Meaning, HasChain, Acyclic;
    var merged := Merge(Ideal(h, db), es);
    assert NoSkips(Normalized(merged));
    AcyclicIff(Normalized(merged));
    assert SameDeltas(Normalized(merged), merged);
    CyclicSame(Normalized(merged), merged);
  }

  /** Whether an import is accepted, whether it ties a circle, and what the store means afterwards, accepted or not, is
      decided by the ideal store: by the values and the deltas without one. It does not matter which values are deltas. */
  lemma ImportSeesValues(h: Hash, db: Db, es: Incoming, done: set<ValueId>)
    requires ValidDb(h, db) && BoundedEntries(es)
    ensures var i := Ideal(h, db);
      && (Acceptable(h, Merge(db, es)) <==> Acceptable(h, Merge(i, es)))
      && (Skipless(h, db, es, done) ==>
            var after, after' := NormalizedOn(Merge(db, es), done), Normalized(Merge(i, es));
            && (Acyclic(after) <==> !Cyclic(Merge(i, es))) && (Acyclic(after') <==> !Cyclic(Merge(i, es)))
            && (Acyclic(after) ==>
                  && ValidDb(h, after) && ValidDb(h, after') && Within(Meaning(h, db), Meaning(h, after))
                  && Meaning(h, after) == Meaning(h, after') && Ideal(h, after) == Ideal(h, after')))
  {
    hide Mat, Merge, NormalizedOn, Ideal, Meaning, Acyclic, Acceptable, Sound, Skipless, Cyclic;
    var i := Ideal(h, db);
    IdealMeans(h, db);
    SameAcceptance(h, db, i, es);
    AllSkipless(h, i, es);
    IdealCircles(h, db, es);
    if Skipless(h, db, es, done) {
      SameImport(h, db, i, es, done, Merge(i, es).Keys);
    }
  }
}

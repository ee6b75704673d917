/** What a content-addressed store of whole values and delta chains means, whatever the order it was built in. */
module ValueGraph {
  import opened Wrappers
  import opened Codec
  import opened Patch

  type ValueId = s: Bytes | |s| == 16 witness [0, 0, 0, 0, 0, 0, 0, 0, 0, 0, 0, 0, 0, 0, 0, 0]

  /** The content hash. Nothing here relies on it being free of collisions. */
  type Hash = Bytes -> ValueId

  datatype ValueKind = Cell | Group | BlobChunk | BlobManifest | Delta | Embedding

  datatype SkipPatch = SkipPatch(base: ValueId, patch: Bytes, distance: nat)

  datatype DeltaEntry = DeltaEntry(base: ValueId, fullLen: nat, depth: nat, skip: seq<SkipPatch>)

  datatype ValueEntry = ValueEntry(kind: ValueKind, bytes: Bytes, delta: Option<DeltaEntry>)

  /** The entry stored under each id. */
  type Db = map<ValueId, ValueEntry>

  /** The bytes each id stands for. */
  type Model = map<ValueId, Bytes>

  /** `e` is rebuilt from other entries. A delta without its base record can never be rebuilt. */
  predicate Chained(e: ValueEntry) {
    e.kind == Delta && e.delta.Some?
  }

  /** Rebuilding `e` may read the value of `b`. */
  predicate Reads(e: ValueEntry, b: ValueId) {
    Chained(e) && (b == e.delta.value.base || exists s :: s in e.delta.value.skip && s.base == b)
  }

  /******* Termination *******/

  ghost predicate Ranked(db: Db, rank: map<ValueId, nat>) {
    && db.Keys <= rank.Keys
    && forall id, b :: id in db && b in db && Reads(db[id], b) ==> rank[b] < rank[id]
  }

  /** No value is rebuilt, directly or through others, from itself. */
  ghost predicate Acyclic(db: Db) {
    exists rank :: Ranked(db, rank)
  }

  ghost function RankOf(db: Db, id: ValueId): nat
    requires Acyclic(db)
  {
    var rank :| Ranked(db, rank);
    if id in db then 1 + rank[id] else 0
  }

  lemma RankDrops(db: Db, id: ValueId, b: ValueId)
    requires Acyclic(db) && id in db && Reads(db[id], b)
    ensures RankOf(db, b) < RankOf(db, id)
  {
  }

  /******* Materialization *******/

  datatype Built = Built(bytes: Bytes, steps: nat, usedSkip: bool)

  datatype Candidate = Candidate(base: ValueId, patch: Bytes, isSkip: bool)

  function SkipCandidates(skip: seq<SkipPatch>): seq<Candidate> {
    seq(|skip|, i requires 0 <= i < |skip| => Candidate(skip[i].base, skip[i].patch, true))
  }

  /** The base patch first, then the skip patches in stored order. */
  function Candidates(e: ValueEntry, useSkip: bool): (cs: seq<Candidate>)
    requires Chained(e)
    ensures forall c :: c in cs ==> Reads(e, c.base)
    ensures cs != [] && cs[0] == Candidate(e.delta.value.base, e.bytes, false)
  {
    var d := e.delta.value;
    var cs := [Candidate(d.base, e.bytes, false)] + if useSkip then SkipCandidates(d.skip) else [];
    assert forall i :: 0 <= i < |d.skip| ==> d.skip[i] in d.skip;
    cs
  }

  /** The bytes an id rebuilds to, with the number of patches applied, or the error met on the way. */
  ghost function Mat(h: Hash, db: Db, id: ValueId, useSkip: bool): Outcome<Built>
    requires Acyclic(db)
    decreases RankOf(db, id)
  {
    if id !in db then Err(NotFound)
    else
      var e := db[id];
      if e.kind != Delta then Ok(Built(e.bytes, 0, false))
      else if e.delta.None? then Err(InvalidDelta)
      else
        var best :- BestOf(h, db, id, Candidates(e, useSkip), None, useSkip);
        if best.None? || h(best.value.bytes) != id then Err(InvalidDelta) else Ok(best.value)
  }

  /** Tries every candidate in order; the first error wins, otherwise the fewest steps. */
  ghost function BestOf(h: Hash, db: Db, id: ValueId, cs: seq<Candidate>, best: Option<Built>, useSkip: bool)
    : Outcome<Option<Built>>
    requires Acyclic(db) && id in db && Chained(db[id])
    requires forall c :: c in cs ==> Reads(db[id], c.base)
    decreases RankOf(db, id), |cs|
  {
    if cs == [] then Ok(best)
    else
      RankDrops(db, id, cs[0].base);
      var base :- Mat(h, db, cs[0].base, useSkip);
      var built :- Rebuild(db[id], base, cs[0]);
      BestOf(h, db, id, cs[1..], Fewer(best, built), useSkip)
  }

  function Rebuild(e: ValueEntry, base: Built, c: Candidate): Outcome<Built>
    requires Chained(e)
  {
    var value :- ApplyPatch(base.bytes, c.patch);
    if |value| != e.delta.value.fullLen then Err(DeltaLengthMismatch)
    else Ok(Built(value, base.steps + 1, base.usedSkip || c.isSkip))
  }

  function Fewer(best: Option<Built>, built: Built): Option<Built> {
    if best.None? || best.value.steps > built.steps then Some(built) else best
  }

  /******* Soundness: a local condition on every entry *******/

  /** Under `m`, applying `patch` to the value of `base` gives the value of `id`. */
  ghost predicate Rebuilds(m: Model, id: ValueId, base: ValueId, patch: Bytes) {
    id in m && base in m && ApplyPatch(m[base], patch) == Ok(m[id])
  }

  /** The bytes an entry stands for when the other ids stand for those in `m`, read without its skip patches. */
  function PlainValue(h: Hash, m: Model, id: ValueId, e: ValueEntry): Option<Bytes> {
    if e.kind != Delta then Some(e.bytes)
    else if e.delta.None? || e.delta.value.base !in m then None
    else
      var value := ApplyPatch(m[e.delta.value.base], e.bytes);
      if value.Ok? && |value.value| == e.delta.value.fullLen && h(value.value) == id then Some(value.value) else None
  }

  function ValueIn(m: Model, id: ValueId): Option<Bytes> {
    if id in m then Some(m[id]) else None
  }

  /** All skip patches of a delta that has a value give that value; one that has none, for want of its base or because it
      does not rebuild, has no skip patches. */
  ghost predicate SkipsFit(m: Model, id: ValueId, e: ValueEntry) {
    Chained(e) ==>
      if id in m then forall s :: s in e.delta.value.skip ==> Rebuilds(m, id, s.base, s.patch)
      else e.delta.value.skip == []
  }

  /** The entry stands for what `m` says, or for nothing if `m` says nothing. */
  ghost predicate EntrySound(h: Hash, m: Model, id: ValueId, e: ValueEntry) {
    PlainValue(h, m, id, e) == ValueIn(m, id) && SkipsFit(m, id, e)
  }

  ghost predicate Bounded(m: Model) {
    forall id :: id in m ==> |m[id]| < U64
  }

  /** Every entry of `db` is consistent with `m`. */
  ghost predicate Sound(h: Hash, db: Db, m: Model) {
    && m.Keys <= db.Keys
    && Bounded(m)
    && forall id :: id in db ==> EntrySound(h, m, id, db[id])
  }

  lemma CandidatesRebuild(h: Hash, m: Model, id: ValueId, e: ValueEntry, useSkip: bool)
    requires Chained(e) && EntrySound(h, m, id, e) && id in m
    ensures forall c :: c in Candidates(e, useSkip) ==> Rebuilds(m, id, c.base, c.patch)
  {
    hide ApplyPatch;
    forall c | c in Candidates(e, useSkip)
      ensures Rebuilds(m, id, c.base, c.patch)
    {
      var skip := e.delta.value.skip;
      if c != Candidate(e.delta.value.base, e.bytes, false) {
        var i :| 0 <= i < |skip| && c == SkipCandidates(skip)[i];
        assert skip[i] in skip;
      }
    }
  }

  lemma {:induction false} BestOfSound(h: Hash, db: Db, m: Model, id: ValueId, cs: seq<Candidate>,
                                       best: Option<Built>, useSkip: bool)
    requires Acyclic(db) && Sound(h, db, m) && id in db && Chained(db[id]) && id in m
    requires forall c :: c in cs ==> Reads(db[id], c.base) && Rebuilds(m, id, c.base, c.patch)
    requires best.Some? ==> best.value.bytes == m[id]
    requires best.Some? || cs != []
    ensures var r := BestOf(h, db, id, cs, best, useSkip);
      r.Ok? && r.value.Some? && r.value.value.bytes == m[id]
    decreases RankOf(db, id), |cs|
  {
    hide ApplyPatch;
    if cs != [] {
      var c := cs[0];
      assert Rebuilds(m, id, c.base, c.patch);
      RankDrops(db, id, c.base);
      MatSound(h, db, m, c.base, useSkip);
      var built := Rebuild(db[id], Mat(h, db, c.base, useSkip).value, c).value;
      BestOfSound(h, db, m, id, cs[1..], Fewer(best, built), useSkip);
    }
  }

  /** Why an id without a value cannot be rebuilt: what is wrong with the first link, down its chain, that fails. */
  ghost function Fault(h: Hash, db: Db, m: Model, id: ValueId): Error
    requires Acyclic(db)
    decreases RankOf(db, id)
  {
    if id !in db then NotFound
    else if !Chained(db[id]) then InvalidDelta
    else
      var d := db[id].delta.value;
      if d.base !in m then
        RankDrops(db, id, d.base);
        Fault(h, db, m, d.base)
      else
        var value := ApplyPatch(m[d.base], db[id].bytes);
        if value.Err? then value.error
        else if |value.value| != d.fullLen then DeltaLengthMismatch
        else InvalidDelta
  }

  /** In a sound store every id materializes to its model value, with and without skip patches, or to its fault. */
  lemma {:induction false} MatSound(h: Hash, db: Db, m: Model, id: ValueId, useSkip: bool)
    requires Acyclic(db) && Sound(h, db, m)
    ensures id in m ==> Mat(h, db, id, useSkip).Ok? && Mat(h, db, id, useSkip).value.bytes == m[id]
    ensures id !in m ==> Mat(h, db, id, useSkip) == Err(Fault(h, db, m, id))
    decreases RankOf(db, id)
  {
    hide ApplyPatch;
    if id in db {
      assert EntrySound(h, m, id, db[id]);
      if Chained(db[id]) {
        if id in m {
          CandidatesRebuild(h, m, id, db[id], useSkip);
          BestOfSound(h, db, m, id, Candidates(db[id], useSkip), None, useSkip);
        } else {
          RankDrops(db, id, db[id].delta.value.base);
          MatSound(h, db, m, db[id].delta.value.base, useSkip);
          OnlyCandidate(h, db, id, useSkip);
        }
      }
    }
  }

  predicate SamePlain(e: ValueEntry, e': ValueEntry) {
    && e'.kind == e.kind && e'.bytes == e.bytes && Chained(e') == Chained(e)
    && (Chained(e) ==> e'.delta.value.base == e.delta.value.base && e'.delta.value.fullLen == e.delta.value.fullLen)
  }

  /** Why an id has no value is decided by the entries that have none and by the values of the others. */
  lemma {:induction false} FaultStays(h: Hash, db: Db, later: Db, m: Model, id: ValueId)
    requires Acyclic(db) && Acyclic(later) && db.Keys == later.Keys && id !in m
    requires forall x :: x in db && x !in m ==> SamePlain(db[x], later[x])
    ensures Fault(h, later, m, id) == Fault(h, db, m, id)
    decreases RankOf(db, id)
  {
    hide ApplyPatch, Acyclic, RankOf, Mat;
    if id in db && Chained(db[id]) && db[id].delta.value.base !in m {
      RankDrops(db, id, db[id].delta.value.base);
      FaultStays(h, db, later, m, db[id].delta.value.base);
    }
  }

  /** Without skip patches to choose from, a delta is its base's value with its own patch applied. */
  lemma OnlyCandidate(h: Hash, db: Db, id: ValueId, useSkip: bool)
    requires Acyclic(db) && id in db && Chained(db[id]) && (useSkip ==> db[id].delta.value.skip == [])
    ensures var base := Mat(h, db, db[id].delta.value.base, useSkip);
      Mat(h, db, id, useSkip) ==
        if base.Err? then Err(base.error)
        else
          var built := Rebuild(db[id], base.value, Candidate(db[id].delta.value.base, db[id].bytes, false));
          if built.Err? then Err(built.error) else if h(built.value.bytes) != id then Err(InvalidDelta) else built
  {
    hide Rebuild;
    var cs := Candidates(db[id], useSkip);
    assert cs == [Candidate(db[id].delta.value.base, db[id].bytes, false)] && cs[1..] == [];
    var base := Mat(h, db, cs[0].base, useSkip);
    if base.Ok? && Rebuild(db[id], base.value, cs[0]).Ok? {
      var built := Rebuild(db[id], base.value, cs[0]).value;
      assert BestOf(h, db, id, cs[1..], Fewer(None, built), useSkip) == Ok(Some(built));
    }
  }

  /** What the store stands for: the bytes of every id that materializes. */
  ghost function Meaning(h: Hash, db: Db): Model
    requires Acyclic(db)
  {
    map id | id in db && Mat(h, db, id, false).Ok? :: Mat(h, db, id, false).value.bytes
  }

  /** A store in working order: rebuilding terminates, and every entry agrees with what the others mean. */
  ghost predicate ValidDb(h: Hash, db: Db): (b: bool)
    ensures b ==> Acyclic(db)
  {
    Acyclic(db) && Sound(h, db, Meaning(h, db))
  }

  lemma MeaningIs(h: Hash, db: Db, m: Model)
    requires Acyclic(db) && Sound(h, db, m)
    ensures Meaning(h, db) == m && ValidDb(h, db)
  {
    hide ApplyPatch;
    forall id | id in db {
      MatSound(h, db, m, id, false);
    }
    assert Meaning(h, db).Keys == m.Keys;
    assert Meaning(h, db) == m;
  }

  /******* Chain length and reconstruction steps *******/

  /** Following base links from `id` reaches a whole value after exactly `n` deltas. */
  ghost predicate ChainLen(db: Db, id: ValueId, n: nat)
    decreases n
  {
    id in db &&
    if db[id].kind != Delta then n == 0
    else db[id].delta.Some? && n > 0 && ChainLen(db, db[id].delta.value.base, n - 1)
  }

  lemma {:induction false} ChainLenUnique(db: Db, id: ValueId, n: nat, k: nat)
    requires ChainLen(db, id, n) && ChainLen(db, id, k)
    ensures n == k
    decreases n
  {
    if n > 0 {
      ChainLenUnique(db, db[id].delta.value.base, n - 1, k - 1);
    }
  }

  /** The length of the chain of base links from `id`, or nothing when a link leads nowhere. */
  ghost function Links(db: Db, id: ValueId): Option<nat>
    requires Acyclic(db)
    decreases RankOf(db, id)
  {
    if id !in db then None
    else if db[id].kind != Delta then Some(0)
    else if db[id].delta.None? then None
    else
      RankDrops(db, id, db[id].delta.value.base);
      Plus(1, Links(db, db[id].delta.value.base))
  }

  function Plus(k: nat, n: Option<nat>): Option<nat> {
    if n.Some? then Some(k + n.value) else None
  }

  lemma {:induction false} LinksIsChainLen(db: Db, id: ValueId, n: nat)
    requires Acyclic(db)
    ensures Links(db, id) == Some(n) <==> ChainLen(db, id, n)
    decreases RankOf(db, id)
  {
    if id in db && Chained(db[id]) {
      var base := db[id].delta.value.base;
      RankDrops(db, id, base);
      if n > 0 {
        LinksIsChainLen(db, base, n - 1);
      }
    }
  }

  /** Without skips a delta is its base's value with its own patch applied, checked against its id. */
  lemma PlainMatStep(h: Hash, db: Db, id: ValueId)
    requires Acyclic(db) && id in db && Chained(db[id]) && Mat(h, db, id, false).Ok?
    ensures var base, built := db[id].delta.value.base, Mat(h, db, id, false).value;
      && Mat(h, db, base, false).Ok?
      && Rebuild(db[id], Mat(h, db, base, false).value, Candidate(base, db[id].bytes, false)) == Ok(built)
      && h(built.bytes) == id
  {
    OnlyCandidate(h, db, id, false);
  }

  /** Without skips, the steps reported are the real chain length, and no skip patch is said to be used. */
  lemma {:induction false} PlainStepsAreChainLen(h: Hash, db: Db, id: ValueId)
    requires Acyclic(db) && Mat(h, db, id, false).Ok?
    ensures ChainLen(db, id, Mat(h, db, id, false).value.steps) && !Mat(h, db, id, false).value.usedSkip
    decreases RankOf(db, id)
  {
    hide ApplyPatch;
    if db[id].kind == Delta {
      PlainMatStep(h, db, id);
      RankDrops(db, id, db[id].delta.value.base);
      PlainStepsAreChainLen(h, db, db[id].delta.value.base);
    }
  }

  /** The best of the candidates takes no more steps than any of them, and replaces an earlier one only to save steps. */
  lemma {:induction false} BestOfIsLeast(h: Hash, db: Db, id: ValueId, cs: seq<Candidate>, best: Built, useSkip: bool)
    requires Acyclic(db) && id in db && Chained(db[id])
    requires forall c :: c in cs ==> Reads(db[id], c.base)
    requires BestOf(h, db, id, cs, Some(best), useSkip).Ok?
    ensures var r := BestOf(h, db, id, cs, Some(best), useSkip).value;
      && r.Some? && r.value.steps <= best.steps && (r.value.steps == best.steps ==> r.value == best)
      && forall c :: c in cs ==>
           Mat(h, db, c.base, useSkip).Ok? && r.value.steps <= Mat(h, db, c.base, useSkip).value.steps + 1
    decreases |cs|
  {
    hide ApplyPatch, Mat;
    if cs != [] {
      var built := Rebuild(db[id], Mat(h, db, cs[0].base, useSkip).value, cs[0]).value;
      BestOfIsLeast(h, db, id, cs[1..], Fewer(Some(best), built).value, useSkip);
      assert cs == [cs[0]] + cs[1..];
    }
  }

  /** It is what one of the candidates gives. */
  lemma {:induction false} BestOfIsOne(h: Hash, db: Db, id: ValueId, cs: seq<Candidate>, best: Option<Built>, useSkip: bool)
    requires Acyclic(db) && id in db && Chained(db[id])
    requires forall c :: c in cs ==> Reads(db[id], c.base)
    requires var r := BestOf(h, db, id, cs, best, useSkip); r.Ok? && r.value.Some? && r.value != best
    ensures exists c :: (
      && c in cs && Mat(h, db, c.base, useSkip).Ok?
      && Rebuild(db[id], Mat(h, db, c.base, useSkip).value, c) == Ok(BestOf(h, db, id, cs, best, useSkip).value.value))
    decreases |cs|
  {
    hide ApplyPatch, Mat, Rebuild;
    var built := Rebuild(db[id], Mat(h, db, cs[0].base, useSkip).value, cs[0]).value;
    var next := Fewer(best, built);
    assert cs == [cs[0]] + cs[1..];
    if BestOf(h, db, id, cs[1..], next, useSkip) == Ok(next) {
      assert next == Some(built) && cs[0] in cs;
    } else {
      BestOfIsOne(h, db, id, cs[1..], next, useSkip);
    }
  }

  /** Reconstruction takes the shortest way there is: one step more than its base or the best of its skip bases, the base
      when that is as good as any, and exactly one of them. */
  lemma ShortestWay(h: Hash, db: Db, id: ValueId, useSkip: bool)
    requires Acyclic(db) && id in db && Chained(db[id]) && Mat(h, db, id, useSkip).Ok?
    ensures var built, cs := Mat(h, db, id, useSkip).value, Candidates(db[id], useSkip);
      && (forall c :: c in cs ==>
            Mat(h, db, c.base, useSkip).Ok? && built.steps <= Mat(h, db, c.base, useSkip).value.steps + 1)
      && (exists c :: c in cs && Mat(h, db, c.base, useSkip).Ok?
            && Rebuild(db[id], Mat(h, db, c.base, useSkip).value, c) == Ok(built))
      && (built.steps == Mat(h, db, cs[0].base, useSkip).value.steps + 1 ==>
            built.usedSkip == Mat(h, db, cs[0].base, useSkip).value.usedSkip)
  {
    hide ApplyPatch;
    var cs := Candidates(db[id], useSkip);
    RankDrops(db, id, cs[0].base);
    var first := Rebuild(db[id], Mat(h, db, cs[0].base, useSkip).value, cs[0]).value;
    assert BestOf(h, db, id, cs, None, useSkip) == BestOf(h, db, id, cs[1..], Some(first), useSkip);
    BestOfIsLeast(h, db, id, cs[1..], first, useSkip);
    BestOfIsOne(h, db, id, cs, None, useSkip);
    assert cs == [cs[0]] + cs[1..];
  }

  /** Skip patches never cost steps, and a reconstruction says it used one exactly when that saved some: without it would
      have taken the real chain length. */
  lemma {:induction false} SkipsSaveSteps(h: Hash, db: Db, id: ValueId, n: nat)
    requires Acyclic(db) && Mat(h, db, id, true).Ok? && ChainLen(db, id, n)
    ensures Mat(h, db, id, true).value.steps <= n
    ensures Mat(h, db, id, true).value.usedSkip <==> Mat(h, db, id, true).value.steps < n
    decreases n
  {
    hide ApplyPatch, BestOf;
    if n == 0 {
      assert Mat(h, db, id, true) == Ok(Built(db[id].bytes, 0, false));
    } else {
      var base, built := db[id].delta.value.base, Mat(h, db, id, true).value;
      ShortestWay(h, db, id, true);
      SkipsSaveSteps(h, db, base, n - 1);
      if !built.usedSkip {
        var c :| c in Candidates(db[id], true) && Mat(h, db, c.base, true).Ok?
          && Rebuild(db[id], Mat(h, db, c.base, true).value, c) == Ok(built);
        assert c == Candidates(db[id], true)[0];
      }
    }
  }

  /******* Growing and rewriting a store *******/

  lemma RankBound(db: Db, rank: map<ValueId, nat>) returns (top: nat)
    requires db.Keys <= rank.Keys
    ensures forall id :: id in db ==> rank[id] < top
  {
    top := 0;
    var todo := db.Keys;
    while todo != {}
      invariant todo <= db.Keys
      invariant forall id :: id in db && id !in todo ==> rank[id] < top
      decreases |todo|
    {
      var id :| id in todo;
      todo := todo - {id};
      top := if rank[id] < top then top else rank[id] + 1;
    }
  }

  /** `more` says everything `m` does. */
  ghost predicate Within(m: Model, more: Model) {
    m.Keys <= more.Keys && forall id :: id in m ==> more[id] == m[id]
  }

  /** The deltas of a store that have no value, be it that their base is missing or that they do not rebuild. */
  ghost function Waiting(h: Hash, db: Db): Db
    requires Acyclic(db)
  {
    map id | id in db && Chained(db[id]) && id !in Meaning(h, db) :: db[id]
  }

  /** Every delta with a base record has a value. */
  ghost predicate Complete(h: Hash, db: Db)
    requires Acyclic(db)
  {
    forall id :: id in db && Chained(db[id]) ==> id in Meaning(h, db)
  }

  /** The meaning of a store is a fixed point: each entry stands for its plain value among the others. */
  lemma MeaningStep(h: Hash, db: Db, id: ValueId)
    requires Acyclic(db) && id in db
    ensures ValueIn(Meaning(h, db), id) == PlainValue(h, Meaning(h, db), id, db[id])
  {
    hide ApplyPatch;
    if Chained(db[id]) {
      OnlyCandidate(h, db, id, false);
    }
  }

  /** Whatever else changes in a store, a value stays as long as the entries it is rebuilt from do. */
  lemma {:induction false} ValueStays(h: Hash, db: Db, later: Db, id: ValueId)
    requires Acyclic(db) && Acyclic(later) && id in Meaning(h, db)
    requires forall x :: x in Meaning(h, db) ==> x in later && SamePlain(db[x], later[x])
    ensures id in Meaning(h, later) && Meaning(h, later)[id] == Meaning(h, db)[id]
    decreases RankOf(db, id)
  {
    hide ApplyPatch, Mat;
    MeaningStep(h, db, id);
    if Chained(db[id]) {
      RankDrops(db, id, db[id].delta.value.base);
      ValueStays(h, db, later, db[id].delta.value.base);
    }
    MeaningStep(h, later, id);
  }

  lemma MeaningStays(h: Hash, db: Db, later: Db)
    requires Acyclic(db) && Acyclic(later)
    requires forall x :: x in Meaning(h, db) ==> x in later && SamePlain(db[x], later[x])
    ensures Within(Meaning(h, db), Meaning(h, later))
  {
    hide Meaning;
    forall id | id in Meaning(h, db)
      ensures id in Meaning(h, later) && Meaning(h, later)[id] == Meaning(h, db)[id]
    {
      ValueStays(h, db, later, id);
    }
  }

  predicate BoundedDb(db: Db) {
    forall id :: id in db && db[id].kind != Delta ==> |db[id].bytes| < U64
  }

  lemma MeaningIsBounded(h: Hash, db: Db)
    requires Acyclic(db) && BoundedDb(db)
    ensures Bounded(Meaning(h, db))
  {
    hide Mat;
    forall id | id in Meaning(h, db)
      ensures |Meaning(h, db)[id]| < U64
    {
      MeaningStep(h, db, id);
    }
  }

  /** A well-founded store is in working order when its skip patches are. */
  lemma SkipsDecide(h: Hash, db: Db)
    requires Acyclic(db) && BoundedDb(db)
    requires forall id :: id in db ==> SkipsFit(Meaning(h, db), id, db[id])
    ensures ValidDb(h, db)
  {
    hide PlainValue, Mat;
    MeaningIsBounded(h, db);
    forall id | id in db
      ensures EntrySound(h, Meaning(h, db), id, db[id])
    {
      MeaningStep(h, db, id);
    }
  }

  lemma ValidIsBounded(h: Hash, db: Db)
    requires ValidDb(h, db)
    ensures BoundedDb(db)
  {
    forall id | id in db && db[id].kind != Delta
      ensures |db[id].bytes| < U64
    {
      assert EntrySound(h, Meaning(h, db), id, db[id]);
    }
  }

  lemma SkipsFitGrows(m: Model, more: Model, id: ValueId, e: ValueEntry)
    requires SkipsFit(m, id, e) && Within(m, more)
    ensures SkipsFit(more, id, e)
  {
    hide ApplyPatch;
    if Chained(e) && id in m {
      forall s | s in e.delta.value.skip
        ensures Rebuilds(more, id, s.base, s.patch)
      {
        assert Rebuilds(m, id, s.base, s.patch);
      }
    }
  }

  /** A value is rebuilt from values only, and an entry without one reads nothing but its base. */
  lemma ValuesReadValues(h: Hash, m: Model, id: ValueId, e: ValueEntry, b: ValueId)
    requires EntrySound(h, m, id, e) && Reads(e, b)
    ensures id in m ==> b in m
    ensures id !in m ==> b == e.delta.value.base
  {
    hide ApplyPatch;
    if id in m && b != e.delta.value.base {
      var s :| s in e.delta.value.skip && s.base == b;
      assert Rebuilds(m, id, s.base, s.patch);
    }
  }

  /** The model after storing a fresh id: `None` for an entry that can never be rebuilt. */
  ghost function Extend(m: Model, id: ValueId, v: Option<Bytes>): Model {
    if v.Some? then m[id := v.value] else m
  }

  /** Ranks with room for a new id between the entries that have values and those that wait for one. */
  lemma AddKeepsAcyclic(h: Hash, db: Db, m: Model, id: ValueId, e: ValueEntry)
    requires Acyclic(db) && Sound(h, db, m) && id !in db
    requires forall b :: Reads(e, b) ==> b in m
    ensures Acyclic(db[id := e])
  {
    hide EntrySound;
    var rank :| Ranked(db, rank);
    var top := RankBound(db, rank);
    var db' := db[id := e];
    var rank' := map x | x in db' :: if x == id then top else if x in m then rank[x] else top + 1 + rank[x];
    forall x, b | x in db' && b in db' && Reads(db'[x], b)
      ensures rank'[b] < rank'[x]
    {
      if x != id {
        ValuesReadValues(h, m, x, db[x], b);
      }
    }
    assert Ranked(db', rank');
  }

  /** Some entry without a value has `id` as its base. */
  ghost predicate Awaited(h: Hash, db: Db, id: ValueId)
    requires Acyclic(db)
  {
    exists x :: x in Waiting(h, db) && Waiting(h, db)[x].delta.value.base == id
  }

  /** The new entry gets the value it was written for, whoever else gets one. */
  lemma NewValue(h: Hash, db: Db, id: ValueId, e: ValueEntry, v: Option<Bytes>)
    requires ValidDb(h, db) && id !in db && Acyclic(db[id := e])
    requires EntrySound(h, Extend(Meaning(h, db), id, v), id, e)
    requires forall b :: Reads(e, b) ==> b in Meaning(h, db)
    ensures Within(Meaning(h, db), Meaning(h, db[id := e]))
    ensures ValueIn(Meaning(h, db[id := e]), id) == v && (e.kind != Delta ==> v == Some(e.bytes))
  {
    hide ApplyPatch, Mat, Acyclic;
    var m, db' := Meaning(h, db), db[id := e];
    MeaningStays(h, db, db');
    MeaningStep(h, db', id);
    assert ValueIn(Extend(m, id, v), id) == v;
    assert Chained(e) ==> Reads(e, e.delta.value.base);
  }

  lemma NobodyWaited(h: Hash, db: Db, id: ValueId, e: ValueEntry, v: Option<Bytes>)
    requires ValidDb(h, db) && id !in db && !Awaited(h, db, id) && Acyclic(db[id := e])
    requires v.Some? ==> |v.value| < U64
    requires EntrySound(h, Extend(Meaning(h, db), id, v), id, e)
    ensures Meaning(h, db[id := e]) == Extend(Meaning(h, db), id, v)
  {
    hide ApplyPatch, Mat, Acyclic, Meaning, SkipsFit;
    var m, db', m' := Meaning(h, db), db[id := e], Extend(Meaning(h, db), id, v);
    forall x | x in db'
      ensures EntrySound(h, m', x, db'[x])
    {
      if x != id {
        assert EntrySound(h, m, x, db[x]);
        if Chained(db[x]) && x !in m {
          assert x in Waiting(h, db);
        }
        SkipsFitExtends(m, id, v, x, db[x]);
      }
    }
    MeaningIs(h, db', m');
  }

  lemma SkipsFitExtends(m: Model, id: ValueId, v: Option<Bytes>, x: ValueId, e: ValueEntry)
    requires SkipsFit(m, x, e) && id !in m && x != id
    ensures SkipsFit(Extend(m, id, v), x, e)
  {
    SkipsFitGrows(m, Extend(m, id, v), x, e);
  }

  /** A new entry, rebuilt from values only, gets its own value and leaves those of the others. It gives no other entry a
      value unless one was waiting for it. */
  lemma AddEntry(h: Hash, db: Db, id: ValueId, e: ValueEntry, v: Option<Bytes>)
    requires ValidDb(h, db) && id !in db
    requires v.Some? ==> |v.value| < U64
    requires EntrySound(h, Extend(Meaning(h, db), id, v), id, e)
    requires forall b :: Reads(e, b) ==> b in Meaning(h, db)
    ensures ValidDb(h, db[id := e])
    ensures ValueIn(Meaning(h, db[id := e]), id) == v && Within(Meaning(h, db), Meaning(h, db[id := e]))
    ensures !Awaited(h, db, id) ==> Meaning(h, db[id := e]) == Extend(Meaning(h, db), id, v)
  {
    hide ApplyPatch, Mat, Acyclic, PlainValue;
    var m, db' := Meaning(h, db), db[id := e];
    AddKeepsAcyclic(h, db, m, id, e);
    MeaningStays(h, db, db');
    NewValue(h, db, id, e, v);
    var m' := Meaning(h, db');
    forall x | x in db'
      ensures SkipsFit(m', x, db'[x])
    {
      if x == id {
        SkipsFitGrows(Extend(m, id, v), m', id, e);
      } else {
        assert EntrySound(h, m, x, db[x]);
        SkipsFitGrows(m, m', x, db[x]);
      }
    }
    assert BoundedDb(db') by {
      ValidIsBounded(h, db);
    }
    SkipsDecide(h, db');
    if !Awaited(h, db, id) {
      NobodyWaited(h, db, id, e, v);
    }
  }
}

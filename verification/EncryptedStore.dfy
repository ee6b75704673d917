/** Encrypted values in the value store, and the sweep that moves them to a rotated key. */
module EncryptedStore {
  import opened Wrappers
  import opened Codec
  import opened ValueGraph
  import opened Compaction
  import opened Encryption
  import VS = ValueStore

  /** Every entry is a cell stored under the hash of its bytes. */
  ghost predicate CellStore(h: Hash, db: Db) {
    forall id :: id in db ==> db[id].kind == Cell && h(db[id].bytes) == id
  }

  /** Under the hash of any bytes written lies a cell of those very bytes: no other bytes, and no delta, got there first. */
  ghost predicate NoClash(h: Hash, db: Db, written: set<Bytes>) {
    forall b :: b in written && h(b) in db ==> db[h(b)].kind == Cell && db[h(b)].bytes == b
  }

  /** In a store of cells it is enough that the bytes written share no hash with other stored bytes. */
  lemma CellsDoNotClash(h: Hash, db: Db, written: set<Bytes>)
    requires CellStore(h, db)
    requires forall id, b :: id in db && b in written && h(b) == h(db[id].bytes) ==> b == db[id].bytes
    ensures NoClash(h, db, written)
  {
    forall b | b in written && h(b) in db
      ensures db[h(b)].kind == Cell && db[h(b)].bytes == b
    {
      assert h(db[h(b)].bytes) == h(b);
    }
  }

  function ReadEnvelope(f: Foreign, db: Db, id: ValueId): Outcome<Envelope> {
    if id !in db then Err(MissingValue)
    else if db[id].kind != Cell then Err(UnexpectedKind)
    else FromStoredBytes(f, db[id].bytes)
  }

  function GetDecrypted(f: Foreign, ring: Keyring, ctx: Context, db: Db, id: ValueId): Outcome<Bytes> {
    var env :- ReadEnvelope(f, db, id);
    Decrypt(f, ring, ctx, env)
  }

  /** The stored envelope is off, or has the profile's mode and active key: the sweep has nothing to do for it. */
  predicate Settled(f: Foreign, ring: Keyring, ctx: Context, db: Db, id: ValueId) {
    var env := ReadEnvelope(f, db, id);
    env.Ok? && (env.value.mode == Off || (f.trim(ctx.dbId) != [] && UpToDate(f, ring, ctx, env.value)))
  }

  /** The stored envelope has the mode of the profile and, unless that is Off, its active key. */
  predicate Renewed(f: Foreign, ring: Keyring, ctx: Context, db: Db, id: ValueId) {
    ReadEnvelope(f, db, id).Ok? && UpToDate(f, ring, ctx, ReadEnvelope(f, db, id).value)
  }

  /** What storing bytes as a cell makes of the entries. */
  function AfterPut(h: Hash, db: Db, bytes: Bytes): Db {
    if h(bytes) in db then db else db[h(bytes) := Whole(Cell, bytes)]
  }

  /** Stored bytes are found again under their hash unless other bytes already had it. */
  lemma PutReadsBack(h: Hash, db: Db, bytes: Bytes)
    ensures h(bytes) in AfterPut(h, db, bytes) && (CellStore(h, db) ==> CellStore(h, AfterPut(h, db, bytes)))
    ensures forall id :: id in db ==> id in AfterPut(h, db, bytes) && AfterPut(h, db, bytes)[id] == db[id]
    ensures NoClash(h, AfterPut(h, db, bytes), {bytes}) ==>
      AfterPut(h, db, bytes)[h(bytes)].kind == Cell && AfterPut(h, db, bytes)[h(bytes)].bytes == bytes
  {
  }

  /** The strings of the context and of the active keys are valid UTF-8, as they are wherever they come from. */
  ghost predicate Utf8Ok(f: Foreign, ring: Keyring, ctx: Context) {
    && f.utf8(f.trim(ctx.dbId))
    && forall db :: db in ring.profiles && ring.profiles[db].activeKeyId.Some? ==>
         f.utf8(ring.profiles[db].activeKeyId.value)
  }

  lemma EncryptedIsStorable(f: Foreign, ring: Keyring, ctx: Context, plaintext: Bytes, nonce: Nonce)
    requires Utf8Ok(f, ring, ctx) && Encrypt(f, ring, ctx, plaintext, nonce).Ok?
    requires |StoredBytes(Encrypt(f, ring, ctx, plaintext, nonce).value)| < U64
    ensures Storable(f, Encrypt(f, ring, ctx, plaintext, nonce).value)
  {
    hide Aad;
  }

  /** `later` has every entry of `db`, unchanged. */
  ghost predicate Extends(db: Db, later: Db) {
    forall id :: id in db ==> id in later && later[id] == db[id]
  }

  /** After the sweep, `renewed` names what `id` was rewritten to: the same plaintext, in the profile's mode and under its
      active key, with nothing left to do. An id that was not rewritten had nothing to do. */
  ghost predicate Swept(f: Foreign, ring: Keyring, ctx: Context, db: Db, id: ValueId, renewed: Option<ValueId>) {
    if renewed.None? then Settled(f, ring, ctx, db, id)
    else
      && GetDecrypted(f, ring, ctx, db, id).Ok?
      && GetDecrypted(f, ring, ctx, db, renewed.value) == GetDecrypted(f, ring, ctx, db, id)
      && Settled(f, ring, ctx, db, renewed.value) && Renewed(f, ring, ctx, db, renewed.value)
  }

  lemma ReadsPersist(f: Foreign, ring: Keyring, ctx: Context, db: Db, later: Db, id: ValueId)
    requires Extends(db, later) && id in db
    ensures GetDecrypted(f, ring, ctx, later, id) == GetDecrypted(f, ring, ctx, db, id)
    ensures Settled(f, ring, ctx, later, id) == Settled(f, ring, ctx, db, id)
    ensures Renewed(f, ring, ctx, later, id) == Renewed(f, ring, ctx, db, id)
  {
    hide FromStoredBytes, Decrypt, Normalize, UpToDate;
  }

  lemma AllReadsPersist(f: Foreign, ring: Keyring, ctx: Context, db: Db, later: Db)
    requires Extends(db, later)
    ensures forall id :: id in db ==> GetDecrypted(f, ring, ctx, later, id) == GetDecrypted(f, ring, ctx, db, id)
  {
    forall id | id in db {
      ReadsPersist(f, ring, ctx, db, later, id);
    }
  }

  lemma SweptPersists(f: Foreign, ring: Keyring, ctx: Context, db: Db, later: Db, id: ValueId, renewed: Option<ValueId>)
    requires Extends(db, later) && Swept(f, ring, ctx, db, id, renewed)
    ensures Swept(f, ring, ctx, later, id, renewed)
  {
    hide FromStoredBytes, Decrypt, Normalize, UpToDate;
    assert id in db && (renewed.Some? ==> renewed.value in db);
    ReadsPersist(f, ring, ctx, db, later, id);
    if renewed.Some? {
      ReadsPersist(f, ring, ctx, db, later, renewed.value);
    }
  }

  /** One rewritten envelope, stored: unless its hash clashes, the new id reads the same plaintext and is settled. */
  lemma RewriteSettles(f: Foreign, h: Hash, ring: Keyring, ctx: Context, db: Db, id: ValueId, nonce: Nonce)
    requires Unseals(f) && Utf8Ok(f, ring, ctx) && ReadEnvelope(f, db, id).Ok?
    requires Reencrypt(f, ring, ctx, ReadEnvelope(f, db, id).value, nonce).Ok?
    requires Reencrypt(f, ring, ctx, ReadEnvelope(f, db, id).value, nonce).value.Some?
    ensures var bytes := StoredBytes(Reencrypt(f, ring, ctx, ReadEnvelope(f, db, id).value, nonce).value.value);
      var later := AfterPut(h, db, bytes);
      && Extends(db, later) && (CellStore(h, db) ==> CellStore(h, later))
      && (|bytes| < U64 && NoClash(h, later, {bytes}) ==> Swept(f, ring, ctx, later, id, Some(h(bytes))))
  {
    hide Encrypt, Decrypt, FromStoredBytes, StoredBytes, Aad, Normalize, Unseals, SealsAs, UpToDate;
    var env := ReadEnvelope(f, db, id).value;
    var renewed := Reencrypt(f, ring, ctx, env, nonce).value.value;
    var bytes := StoredBytes(renewed);
    var later := AfterPut(h, db, bytes);
    PutReadsBack(h, db, bytes);
    ReadsPersist(f, ring, ctx, db, later, id);
    if |bytes| < U64 && NoClash(h, later, {bytes}) {
      ReencryptKeepsPlaintext(f, ring, ctx, env, nonce, nonce);
      EncryptedIsStorable(f, ring, ctx, Decrypt(f, ring, ctx, env).value, nonce);
      EnvelopeRoundTrip(f, renewed);
      assert ReadEnvelope(f, later, h(bytes)) == Ok(renewed);
      PassedOverIff(f, ring, ctx, renewed, nonce);
    }
  }

  /** What a pass over one id writes: nothing, new bytes, or the first error met. */
  function RewriteOf(f: Foreign, ring: Keyring, ctx: Context, db: Db, id: ValueId, nonce: Nonce): Outcome<Option<Bytes>> {
    var env :- ReadEnvelope(f, db, id);
    var renewed :- Reencrypt(f, ring, ctx, env, nonce);
    if renewed.None? then Ok(None)
    else if |StoredBytes(renewed.value)| >= U64 then Err(TooLong)
    else Ok(Some(StoredBytes(renewed.value)))
  }

  /** It writes the renewed envelope, unless that reaches 2^64 bytes, and nothing for what is settled. */
  lemma RewriteIff(f: Foreign, ring: Keyring, ctx: Context, db: Db, id: ValueId, nonce: Nonce, bytes: Bytes)
    ensures RewriteOf(f, ring, ctx, db, id, nonce) == Ok(Some(bytes)) <==> (
      && |bytes| < 0x1_0000_0000_0000_0000
      && exists was, env :: (
           && ReadEnvelope(f, db, id) == Ok(was) && Reencrypt(f, ring, ctx, was, nonce) == Ok(Some(env))
           && bytes == StoredBytes(env)))
    ensures RewriteOf(f, ring, ctx, db, id, nonce) == Ok(None) <==>
      ReadEnvelope(f, db, id).Ok? && Settled(f, ring, ctx, db, id)
  {
    hide Encrypt, Decrypt, FromStoredBytes, StoredBytes, Reencrypt, ReadEnvelope, Settled;
    if ReadEnvelope(f, db, id).Ok? {
      SettledIff(f, ring, ctx, db, id, nonce);
    }
  }

  /** What is settled is exactly what re-encryption passes over. */
  lemma SettledIff(f: Foreign, ring: Keyring, ctx: Context, db: Db, id: ValueId, nonce: Nonce)
    requires ReadEnvelope(f, db, id).Ok?
    ensures Settled(f, ring, ctx, db, id) <==> Reencrypt(f, ring, ctx, ReadEnvelope(f, db, id).value, nonce) == Ok(None)
  {
    hide Encrypt, Decrypt, FromStoredBytes, Normalize, UpToDate, Reencrypt;
    PassedOverIff(f, ring, ctx, ReadEnvelope(f, db, id).value, nonce);
  }

  lemma ExtendsItself(db: Db)
    ensures Extends(db, db)
  {
  }

  /** A value encrypted and stored reads back as its plaintext unless its hash clashes. */
  lemma PutReadsPlaintext(f: Foreign, h: Hash, ring: Keyring, ctx: Context, db: Db, plaintext: Bytes, nonce: Nonce)
    requires Unseals(f) && Utf8Ok(f, ring, ctx) && Encrypt(f, ring, ctx, plaintext, nonce).Ok?
    requires |StoredBytes(Encrypt(f, ring, ctx, plaintext, nonce).value)| < U64
    ensures var bytes := StoredBytes(Encrypt(f, ring, ctx, plaintext, nonce).value);
      var later := AfterPut(h, db, bytes);
      && Extends(db, later) && (CellStore(h, db) ==> CellStore(h, later))
      && (NoClash(h, later, {bytes}) ==>
            && GetDecrypted(f, ring, ctx, later, h(bytes)) == Ok(plaintext)
            && ReadEnvelope(f, later, h(bytes)).Ok?
            && SealsAs(f, ring, ctx, plaintext, nonce, ReadEnvelope(f, later, h(bytes)).value))
  {
    hide Encrypt, Decrypt, FromStoredBytes, StoredBytes, Aad, Normalize, Unseals, SealsAs;
    EncryptIff(f, ring, ctx, plaintext, nonce, Encrypt(f, ring, ctx, plaintext, nonce).value);
    var env := Encrypt(f, ring, ctx, plaintext, nonce).value;
    var bytes := StoredBytes(env);
    PutReadsBack(h, db, bytes);
    EncryptedIsStorable(f, ring, ctx, plaintext, nonce);
    EnvelopeRoundTrip(f, env);
    EncryptThenDecrypt(f, ring, ring, ctx, plaintext, nonce) by {
      assert KeepsKey(ring, ring, env);
    }
  }

  lemma FewerClashes(h: Hash, db: Db, later: Db, written: set<Bytes>, more: set<Bytes>)
    requires Extends(db, later) && written <= more && NoClash(h, later, more)
    ensures NoClash(h, db, written)
  {
  }

  /** The old and new ids of what was rewritten, in order. */
  function Rewritten(ids: seq<ValueId>, renewed: seq<Option<ValueId>>): (pairs: seq<(ValueId, ValueId)>)
    requires |ids| == |renewed|
  {
    if ids == [] then []
    else
      var n := |ids| - 1;
      Rewritten(ids[..n], renewed[..n]) + if renewed[n].Some? then [(ids[n], renewed[n].value)] else []
  }

  lemma {:induction false} RewrittenPairs(ids: seq<ValueId>, renewed: seq<Option<ValueId>>)
    requires |ids| == |renewed|
    ensures var pairs := Rewritten(ids, renewed);
      && (forall k :: 0 <= k < |pairs| ==>
            exists i :: 0 <= i < |ids| && ids[i] == pairs[k].0 && renewed[i] == Some(pairs[k].1))
      && (forall i :: 0 <= i < |ids| && renewed[i].Some? ==> (ids[i], renewed[i].value) in pairs)
  {
    if ids != [] {
      var n := |ids| - 1;
      var before, pairs := Rewritten(ids[..n], renewed[..n]), Rewritten(ids, renewed);
      RewrittenPairs(ids[..n], renewed[..n]);
      assert forall pair :: pair in before ==> pair in pairs;
      forall k | 0 <= k < |pairs|
        ensures exists i :: 0 <= i < |ids| && ids[i] == pairs[k].0 && renewed[i] == Some(pairs[k].1)
      {
        if k < |before| {
          var i :| 0 <= i < n && ids[..n][i] == before[k].0 && renewed[..n][i] == Some(before[k].1);
          assert ids[i] == pairs[k].0;
        } else {
          assert ids[n] == pairs[k].0;
        }
      }
      forall i | 0 <= i < |ids| && renewed[i].Some?
        ensures (ids[i], renewed[i].value) in pairs
      {
        if i < n {
          assert (ids[..n][i], renewed[..n][i].value) in before;
        } else {
          assert pairs[|before|] == (ids[n], renewed[n].value);
        }
      }
    }
  }

  ghost predicate AllSwept(f: Foreign, ring: Keyring, ctx: Context, db: Db, ids: seq<ValueId>,
                           renewed: seq<Option<ValueId>>)
    requires |ids| == |renewed|
  {
    forall i :: 0 <= i < |ids| ==> Swept(f, ring, ctx, db, ids[i], renewed[i])
  }

  ghost predicate AllSettled(f: Foreign, ring: Keyring, ctx: Context, db: Db, ids: seq<ValueId>) {
    forall i :: 0 <= i < |ids| ==> Settled(f, ring, ctx, db, ids[i])
  }

  lemma ExtendsFurther(a: Db, b: Db, c: Db)
    requires Extends(a, b) && Extends(b, c)
    ensures Extends(a, c)
  {
  }

  lemma AllSweptStep(f: Foreign, h: Hash, ring: Keyring, ctx: Context, here: Db, later: Db, ids: seq<ValueId>,
                     renewed: seq<Option<ValueId>>, one: Option<ValueId>, written: set<Bytes>, bytes: set<Bytes>)
    requires |renewed| < |ids| && Extends(here, later)
    requires NoClash(h, here, written) ==> AllSwept(f, ring, ctx, here, ids[..|renewed|], renewed)
    requires NoClash(h, later, bytes) ==> Swept(f, ring, ctx, later, ids[|renewed|], one)
    ensures NoClash(h, later, written + bytes) ==> AllSwept(f, ring, ctx, later, ids[..|renewed| + 1], renewed + [one])
  {
    hide Swept, Extends, NoClash;
    if NoClash(h, later, written + bytes) {
      FewerClashes(h, here, later, written, written + bytes);
      ExtendsItself(later);
      FewerClashes(h, later, later, bytes, written + bytes);
      forall i | 0 <= i < |renewed|
        ensures Swept(f, ring, ctx, later, ids[i], renewed[i])
      {
        assert ids[..|renewed|][i] == ids[i];
        SweptPersists(f, ring, ctx, here, later, ids[i], renewed[i]);
      }
    }
  }

  lemma RewrittenStep(ids: seq<ValueId>, renewed: seq<Option<ValueId>>, id: ValueId, one: Option<ValueId>)
    requires |ids| == |renewed|
    ensures Rewritten(ids + [id], renewed + [one]) ==
      Rewritten(ids, renewed) + if one.Some? then [(id, one.value)] else []
  {
    assert (ids + [id])[..|ids|] == ids && (renewed + [one])[..|ids|] == renewed;
  }

  /** `n` envelopes have been counted since `before`, `k` of them as rewritten. */
  ghost predicate CountedAll(before: Counters, after: Counters, n: nat, k: nat) {
    Balanced(before) && before.inspected + n < U64 ==>
      && Balanced(after) && after.inspected == before.inspected + n && after.rewritten == before.rewritten + k
  }

  lemma CountStep(before: Counters, here: Counters, after: Counters, n: nat, k: nat, rewrote: bool)
    requires CountedAll(before, here, n, k) && CountedOne(here, after, rewrote)
    ensures CountedAll(before, after, n + 1, if rewrote then k + 1 else k)
  {
  }

  /** `written` has only bytes under whose hash the mapping puts a value. */
  ghost predicate Wrote(h: Hash, pairs: seq<(ValueId, ValueId)>, written: set<Bytes>) {
    forall b :: b in written ==> exists k :: 0 <= k < |pairs| && pairs[k].1 == h(b)
  }

  lemma WroteMore(h: Hash, pairs: seq<(ValueId, ValueId)>, written: set<Bytes>, id: ValueId, one: Option<ValueId>,
                  bytes: set<Bytes>)
    requires Wrote(h, pairs, written) && forall b :: b in bytes ==> one == Some(h(b))
    ensures Wrote(h, pairs + if one.Some? then [(id, one.value)] else [], written + bytes)
  {
    var more := pairs + if one.Some? then [(id, one.value)] else [];
    forall b | b in written + bytes
      ensures exists k :: 0 <= k < |more| && more[k].1 == h(b)
    {
      if b in written {
        var k :| 0 <= k < |pairs| && pairs[k].1 == h(b);
        assert more[k].1 == h(b);
      } else {
        assert more[|pairs|].1 == h(b);
      }
    }
  }

  /** Where the mapping of a sweep sends an id. */
  function Moved(pairs: seq<(ValueId, ValueId)>, id: ValueId): ValueId {
    if pairs == [] then id
    else if pairs[|pairs| - 1].0 == id then pairs[|pairs| - 1].1
    else Moved(pairs[..|pairs| - 1], id)
  }

  lemma {:induction false} MovedIs(pairs: seq<(ValueId, ValueId)>, id: ValueId)
    ensures (id, Moved(pairs, id)) in pairs || (Moved(pairs, id) == id && forall new' :: (id, new') !in pairs)
  {
    if pairs != [] {
      var n := |pairs| - 1;
      MovedIs(pairs[..n], id);
      assert pairs == pairs[..n] + [pairs[n]];
    }
  }

  /** The mapping of a sweep sends every id to one with the same plaintext that needs no further pass. */
  lemma MovedIsSettled(f: Foreign, ring: Keyring, ctx: Context, db: Db, ids: seq<ValueId>,
                       renewed: seq<Option<ValueId>>, i: nat)
    requires |ids| == |renewed| && AllSwept(f, ring, ctx, db, ids, renewed) && i < |ids|
    ensures var now := Moved(Rewritten(ids, renewed), ids[i]);
      GetDecrypted(f, ring, ctx, db, now) == GetDecrypted(f, ring, ctx, db, ids[i]) && Settled(f, ring, ctx, db, now)
    ensures var now := Moved(Rewritten(ids, renewed), ids[i]);
      now != ids[i] ==> Renewed(f, ring, ctx, db, now)
  {
    hide GetDecrypted, Settled, Renewed, Rewritten, Moved;
    var pairs, id := Rewritten(ids, renewed), ids[i];
    RewrittenPairs(ids, renewed);
    MovedIs(pairs, id);
    if (id, Moved(pairs, id)) in pairs {
      var k :| 0 <= k < |pairs| && pairs[k] == (id, Moved(pairs, id));
      var j :| 0 <= j < |ids| && ids[j] == pairs[k].0 && renewed[j] == Some(pairs[k].1);
      assert Swept(f, ring, ctx, db, ids[j], renewed[j]);
    } else {
      assert renewed[i].None?;
      assert Swept(f, ring, ctx, db, ids[i], renewed[i]);
    }
  }

  lemma SettledReads(f: Foreign, ring: Keyring, ctx: Context, db: Db, id: ValueId)
    ensures Settled(f, ring, ctx, db, id) ==> ReadEnvelope(f, db, id).Ok?
  {
  }

  /** The state of a sweep that started from `db` and has dealt with the first ids, one for each of `renewed`. */
  ghost predicate SweptSoFar(f: Foreign, h: Hash, ring: Keyring, ctx: Context, db: Db, now: Db, ids: seq<ValueId>,
                             renewed: seq<Option<ValueId>>, pairs: seq<(ValueId, ValueId)>, written: set<Bytes>,
                             before: Counters, counters: Counters)
  {
    && |renewed| <= |ids| && pairs == Rewritten(ids[..|renewed|], renewed)
    && Extends(db, now) && (CellStore(h, db) ==> CellStore(h, now)) && Wrote(h, pairs, written)
    && (NoClash(h, now, written) ==> AllSwept(f, ring, ctx, now, ids[..|renewed|], renewed))
    && (AllSettled(f, ring, ctx, db, ids) ==> pairs == [] && now == db)
    && CountedAll(before, counters, |renewed|, |pairs|)
  }

  lemma NothingSwept(f: Foreign, h: Hash, ring: Keyring, ctx: Context, db: Db, ids: seq<ValueId>, before: Counters)
    ensures SweptSoFar(f, h, ring, ctx, db, db, ids, [], [], {}, before, before)
  {
    hide Settled;
  }

  /** One more id has been dealt with. */
  lemma SweepStep(f: Foreign, h: Hash, ring: Keyring, ctx: Context, db: Db, here: Db, now: Db, ids: seq<ValueId>,
                  renewed: seq<Option<ValueId>>, pairs: seq<(ValueId, ValueId)>, written: set<Bytes>,
                  before: Counters, counted: Counters, counters: Counters, one: Option<ValueId>, bytes: set<Bytes>)
    requires SweptSoFar(f, h, ring, ctx, db, here, ids, renewed, pairs, written, before, counted) && |renewed| < |ids|
    requires Extends(here, now) && (CellStore(h, here) ==> CellStore(h, now)) && CountedOne(counted, counters, one.Some?)
    requires NoClash(h, now, bytes) ==> Swept(f, ring, ctx, now, ids[|renewed|], one)
    requires forall b :: b in bytes ==> one == Some(h(b))
    requires Settled(f, ring, ctx, here, ids[|renewed|]) ==> one == None && now == here
    ensures var more := pairs + if one.Some? then [(ids[|renewed|], one.value)] else [];
      SweptSoFar(f, h, ring, ctx, db, now, ids, renewed + [one], more, written + bytes, before, counters)
  {
    hide Settled, Swept, AllSwept, Wrote, CellStore, NoClash, Extends, CountedOne, CountedAll, Rewritten;
    var n := |renewed|;
    ExtendsFurther(db, here, now);
    WroteMore(h, pairs, written, ids[n], one, bytes);
    AllSweptStep(f, h, ring, ctx, here, now, ids, renewed, one, written, bytes);
    CountStep(before, counted, counters, n, |pairs|, one.Some?);
    RewrittenStep(ids[..n], renewed, ids[n], one);
    assert ids[..n + 1] == ids[..n] + [ids[n]];
  }

  /** A sweep stopped by an error has still changed nothing stored before. */
  lemma SweepStops(f: Foreign, h: Hash, ring: Keyring, ctx: Context, db: Db, here: Db, now: Db, ids: seq<ValueId>,
                   renewed: seq<Option<ValueId>>, pairs: seq<(ValueId, ValueId)>, written: set<Bytes>,
                   before: Counters, counted: Counters)
    requires SweptSoFar(f, h, ring, ctx, db, here, ids, renewed, pairs, written, before, counted) && |renewed| < |ids|
    requires Extends(here, now) && (CellStore(h, here) ==> CellStore(h, now))
    requires !Settled(f, ring, ctx, here, ids[|renewed|])
    ensures Extends(db, now) && (CellStore(h, db) ==> CellStore(h, now)) && !AllSettled(f, ring, ctx, db, ids)
    ensures forall id :: id in db ==> GetDecrypted(f, ring, ctx, now, id) == GetDecrypted(f, ring, ctx, db, id)
  {
    hide Settled, Swept, AllSwept, Wrote, CellStore, NoClash, Extends, CountedAll, Rewritten, GetDecrypted;
    ExtendsFurther(db, here, now);
    AllReadsPersist(f, ring, ctx, db, now);
  }

  lemma SweepEnds(f: Foreign, h: Hash, ring: Keyring, ctx: Context, db: Db, now: Db, ids: seq<ValueId>,
                  renewed: seq<Option<ValueId>>, pairs: seq<(ValueId, ValueId)>, written: set<Bytes>,
                  before: Counters, counters: Counters)
    requires SweptSoFar(f, h, ring, ctx, db, now, ids, renewed, pairs, written, before, counters) && |renewed| == |ids|
    ensures Extends(db, now) && (CellStore(h, db) ==> CellStore(h, now))
    ensures forall id :: id in db ==> GetDecrypted(f, ring, ctx, now, id) == GetDecrypted(f, ring, ctx, db, id)
    ensures pairs == Rewritten(ids, renewed) && Wrote(h, pairs, written)
    ensures NoClash(h, now, written) ==> AllSwept(f, ring, ctx, now, ids, renewed)
    ensures AllSettled(f, ring, ctx, db, ids) ==> pairs == [] && now == db
    ensures Balanced(before) && before.inspected + |ids| < U64 ==>
      && Balanced(counters) && counters.inspected == before.inspected + |ids|
      && counters.rewritten == before.rewritten + |pairs|
  {
    hide Settled, Swept, AllSwept, Wrote, CellStore, NoClash, Extends, Rewritten, GetDecrypted;
    assert ids[..|ids|] == ids;
    AllReadsPersist(f, ring, ctx, db, now);
  }

  class EncryptedValueStore {
    const inner: VS.ValueStore
    const manager: DatabaseKeyManager

    constructor (inner: VS.ValueStore, manager: DatabaseKeyManager)
      ensures this.inner == inner && this.manager == manager
    {
      this.inner, this.manager := inner, manager;
    }

    /** Encrypts and stores; unless its hash clashes, the id returned holds the envelope the profile asks for and reads back
        the plaintext. */
    method PutEncrypted(ctx: Context, plaintext: Bytes, nonce: Nonce) returns (r: Outcome<ValueId>)
      requires inner.Intact()
      requires Unseals(manager.f) && Utf8Ok(manager.f, manager.Ring(), ctx)
      modifies inner, inner.bloom
      ensures inner.Intact() && Extends(old(inner.Db()), inner.Db()) && (old(inner.Valid()) ==> inner.Valid())
      ensures CellStore(inner.h, old(inner.Db())) ==> CellStore(inner.h, inner.Db())
      ensures var env := Encrypt(manager.f, manager.Ring(), ctx, plaintext, nonce);
        if env.Err? then r == Err(env.error) && inner.Db() == old(inner.Db())
        else if |StoredBytes(env.value)| >= U64 then r == Err(TooLong) && inner.Db() == old(inner.Db())
        else
          && r == Ok(inner.h(StoredBytes(env.value)))
          && inner.Db() == AfterPut(inner.h, old(inner.Db()), StoredBytes(env.value))
      ensures r.Ok? ==>
        var bytes := StoredBytes(Encrypt(manager.f, manager.Ring(), ctx, plaintext, nonce).value);
        NoClash(inner.h, inner.Db(), {bytes}) ==>
          && GetDecrypted(manager.f, manager.Ring(), ctx, inner.Db(), r.value) == Ok(plaintext)
          && ReadEnvelope(manager.f, inner.Db(), r.value).Ok?
          && SealsAs(manager.f, manager.Ring(), ctx, plaintext, nonce, ReadEnvelope(manager.f, inner.Db(), r.value).value)
    {
      hide SealsAs, ReadEnvelope, Encrypt, StoredBytes, CellStore, NoClash, GetDecrypted, Extends, Unseals, Utf8Ok, Healthy,
        VS.ValueStore.Shape, VS.ValueStore.ShadowsOk;
      var f, ring := manager.f, manager.Ring();
      ghost var db := inner.Db();
      ExtendsItself(db);
      var env :- Encrypt(f, ring, ctx, plaintext, nonce);
      var bytes := StoredBytes(env);
      if |bytes| >= U64 {
        return Err(TooLong);
      }
      PutReadsPlaintext(f, inner.h, ring, ctx, db, plaintext, nonce);
      var id := inner.Put(Cell, bytes);
      return Ok(id);
    }

    method GetPlaintext(ctx: Context, id: ValueId) returns (r: Outcome<Bytes>)
      requires inner.Intact()
      ensures r == GetDecrypted(manager.f, manager.Ring(), ctx, inner.Db(), id)
    {
      hide VS.ValueStore.Shape, VS.ValueStore.ShadowsOk, ValidDb, Healthy, FromStoredBytes, Decrypt;
      var env :- ReadStored(id);
      return Decrypt(manager.f, manager.Ring(), ctx, env);
    }

    method ReadStored(id: ValueId) returns (r: Outcome<Envelope>)
      requires inner.Intact()
      ensures r == ReadEnvelope(manager.f, inner.Db(), id)
    {
      var e := inner.EntryById(id);
      if e.None? {
        return Err(MissingValue);
      }
      if e.value.kind != Cell {
        return Err(UnexpectedKind);
      }
      return FromStoredBytes(manager.f, e.value.bytes);
    }

    /** Rewrites one stored envelope under the active key, unless it is off or current. Nothing stored is changed. */
    method ReencryptValue(ctx: Context, id: ValueId, progress: ReencryptionProgress, nonce: Nonce)
      returns (r: Outcome<Option<ValueId>>, ghost written: set<Bytes>)
      requires inner.Intact()
      requires Unseals(manager.f) && Utf8Ok(manager.f, manager.Ring(), ctx)
      modifies inner, inner.bloom, progress
      ensures inner.Intact() && Extends(old(inner.Db()), inner.Db()) && (old(inner.Valid()) ==> inner.Valid())
      ensures CellStore(inner.h, old(inner.Db())) ==> CellStore(inner.h, inner.Db())
      ensures var rewrite := RewriteOf(manager.f, manager.Ring(), ctx, old(inner.Db()), id, nonce);
        if rewrite.Err? then r == Err(rewrite.error) && inner.Db() == old(inner.Db()) && written == {}
        else if rewrite.value.None? then r == Ok(None) && inner.Db() == old(inner.Db()) && written == {}
        else
          && r == Ok(Some(inner.h(rewrite.value.value))) && written == {rewrite.value.value}
          && inner.Db() == AfterPut(inner.h, old(inner.Db()), rewrite.value.value)
      ensures r.Ok? && NoClash(inner.h, inner.Db(), written) ==>
        Swept(manager.f, manager.Ring(), ctx, inner.Db(), id, r.value)
      ensures Settled(manager.f, manager.Ring(), ctx, old(inner.Db()), id) ==> r == Ok(None) && inner.Db() == old(inner.Db())
      ensures r.Ok? ==> CountedOne(old(progress.counters), progress.counters, r.value.Some?)
    {
      hide Encrypt, Decrypt, FromStoredBytes, StoredBytes, Reencrypt, Unseals, Utf8Ok, Healthy,
        VS.ValueStore.Shape, VS.ValueStore.ShadowsOk, ValidDb, CellStore, NoClash, Extends, CountedOne;
      written := {};
      ghost var db := inner.Db();
      ExtendsItself(db);
      var f, ring := manager.f, manager.Ring();
      SettledReads(f, ring, ctx, db, id);
      hide Settled, ReadEnvelope;
      var env :- ReadStored(id);
      SettledIff(f, ring, ctx, db, id, nonce);
      var outcome := manager.ReencryptEnvelope(ctx, env, progress, nonce);
      if outcome.Err? {
        return Err(outcome.error), written;
      }
      if outcome.value.None? {
        return Ok(None), written;
      }
      RewriteSettles(f, inner.h, ring, ctx, db, id, nonce);
      var bytes := StoredBytes(outcome.value.value);
      if |bytes| >= U64 {
        return Err(TooLong), written;
      }
      written := {bytes};
      var renewed := inner.Put(Cell, bytes);
      return Ok(Some(renewed)), written;
    }

    /** The rotation sweep over a list of ids; the first error stops it. Nothing stored before is changed. Unless a hash
        clashes, each id ends up rewritten to an id with the same plaintext or had nothing to do, and counts add up. */
    method ReencryptValues(ctx: Context, ids: seq<ValueId>, progress: ReencryptionProgress, entropy: nat -> Nonce)
      returns (r: Outcome<seq<(ValueId, ValueId)>>, ghost renewed: seq<Option<ValueId>>, ghost written: set<Bytes>)
      requires inner.Intact()
      requires Unseals(manager.f) && Utf8Ok(manager.f, manager.Ring(), ctx)
      modifies inner, inner.bloom, progress
      ensures inner.Intact() && Extends(old(inner.Db()), inner.Db()) && (old(inner.Valid()) ==> inner.Valid())
      ensures CellStore(inner.h, old(inner.Db())) ==> CellStore(inner.h, inner.Db())
      ensures forall id :: id in old(inner.Db()) ==>
        GetDecrypted(manager.f, manager.Ring(), ctx, inner.Db(), id)
        == GetDecrypted(manager.f, manager.Ring(), ctx, old(inner.Db()), id)
      ensures r.Err? ==>
        && |renewed| < |ids|
        && RewriteOf(manager.f, manager.Ring(), ctx, inner.Db(), ids[|renewed|], entropy(|renewed|)) == Err(r.error)
      ensures r.Ok? ==> |renewed| == |ids| && r.value == Rewritten(ids, renewed) && Wrote(inner.h, r.value, written)
      ensures r.Ok? && NoClash(inner.h, inner.Db(), written) ==>
        AllSwept(manager.f, manager.Ring(), ctx, inner.Db(), ids, renewed)
      ensures AllSettled(manager.f, manager.Ring(), ctx, old(inner.Db()), ids) ==>
        r == Ok([]) && inner.Db() == old(inner.Db())
      ensures r.Ok? && Balanced(old(progress.counters)) && old(progress.counters).inspected + |ids| < U64 ==>
        && Balanced(progress.counters)
        && progress.counters.inspected == old(progress.counters).inspected + |ids|
        && progress.counters.rewritten == old(progress.counters).rewritten + |r.value|
    {
      hide SweptSoFar, RewriteOf, AfterPut, Settled, Swept, GetDecrypted, Wrote, Unseals, Utf8Ok, Healthy,
        VS.ValueStore.Shape, VS.ValueStore.ShadowsOk, ValidDb, CellStore, NoClash, Extends, CountedOne, Balanced;
      ghost var f, h, ring, db, before := manager.f, inner.h, manager.Ring(), inner.Db(), progress.counters;
      renewed, written := [], {};
      var rewritten: seq<(ValueId, ValueId)> := [];
      NothingSwept(f, h, ring, ctx, db, ids, before);
      for i := 0 to |ids|
        invariant inner.Intact() && (old(inner.Valid()) ==> inner.Valid()) && |renewed| == i
        invariant SweptSoFar(f, h, ring, ctx, db, inner.Db(), ids, renewed, rewritten, written, before, progress.counters)
      {
        ghost var here, counted := inner.Db(), progress.counters;
        var outcome;
        ghost var bytes;
        outcome, bytes := ReencryptValue(ctx, ids[i], progress, entropy(i));
        if outcome.Err? {
          SweepStops(f, h, ring, ctx, db, here, inner.Db(), ids, renewed, rewritten, written, before, counted);
          return Err(outcome.error), renewed, written;
        }
        SweepStep(f, h, ring, ctx, db, here, inner.Db(), ids, renewed, rewritten, written, before, counted,
                  progress.counters, outcome.value, bytes);
        assert rewritten + [] == rewritten;
        if outcome.value.Some? {
          rewritten := rewritten + [(ids[i], outcome.value.value)];
        }
        renewed, written := renewed + [outcome.value], written + bytes;
      }
      SweepEnds(f, h, ring, ctx, db, inner.Db(), ids, renewed, rewritten, written, before, progress.counters);
      return Ok(rewritten), renewed, written;
    }
  }

  /** Sweeping what a sweep produced rewrites nothing and stores nothing. */
  method SweepTwice(store: EncryptedValueStore, ctx: Context, ids: seq<ValueId>, progress: ReencryptionProgress,
                    entropy: nat -> Nonce, again: nat -> Nonce)
    returns (first: Outcome<seq<(ValueId, ValueId)>>, second: Outcome<seq<(ValueId, ValueId)>>,
             ghost between: Db, ghost written: set<Bytes>)
    requires store.inner.Intact()
    requires Unseals(store.manager.f) && Utf8Ok(store.manager.f, store.manager.Ring(), ctx)
    modifies store.inner, store.inner.bloom, progress
    ensures store.inner.Intact() && (old(store.inner.Valid()) ==> store.inner.Valid())
    ensures Extends(old(store.inner.Db()), between) && Extends(between, store.inner.Db())
    ensures first.Ok? ==> Wrote(store.inner.h, first.value, written)
    ensures first.Ok? && NoClash(store.inner.h, between, written) ==> second == Ok([]) && store.inner.Db() == between
  {
    hide Settled, Swept, Unseals, Utf8Ok, Healthy, VS.ValueStore.Shape, VS.ValueStore.ShadowsOk, ValidDb, CellStore, NoClash,
      Extends, Wrote, GetDecrypted;
    ghost var renewed;
    first, renewed, written := store.ReencryptValues(ctx, ids, progress, entropy);
    between, second := store.inner.Db(), first;
    ExtendsItself(between);
    if first.Err? {
      return;
    }
    var moved := first.value;
    var now := seq(|ids|, i requires 0 <= i < |ids| => Moved(moved, ids[i]));
    if NoClash(store.inner.h, between, written) {
      forall i | 0 <= i < |ids|
        ensures Settled(store.manager.f, store.manager.Ring(), ctx, between, now[i])
      {
        MovedIsSettled(store.manager.f, store.manager.Ring(), ctx, between, ids, renewed, i);
      }
    }
    ghost var none, nothing;
    second, none, nothing := store.ReencryptValues(ctx, now, progress, again);
  }
}

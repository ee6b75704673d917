/** Encryption envelopes, per-database keys and their rotation. The cryptography itself is foreign. */
module Encryption {
  import opened Wrappers
  import opened Codec
  import opened ValueGraph
  import V = ValueSegment

  /** Strings are their UTF-8 bytes. */
  type Text = Bytes

  type Nonce = b: Bytes | |b| == 12 witness seq(12, _ => 0)
  type Key = b: Bytes | |b| == 32 witness seq(32, _ => 0)

  /** Calls into the platform's string routines and the cryptographic libraries. */
  datatype Foreign = Foreign(
    utf8: Bytes -> bool,
    trim: Text -> Text,
    deriveKey: (Key, Option<Key>, Bytes) -> Key,
    deriveNonce: (Key, Option<Key>, Bytes) -> Nonce,
    digest: Bytes -> Key,
    seal: (Key, Nonce, Bytes, Bytes) -> Option<Bytes>,
    unseal: (Key, Nonce, Bytes, Bytes) -> Option<Bytes>)

  /** What is taken from the AEAD: unsealing under the same key, nonce and associated data undoes sealing. */
  ghost predicate Unseals(f: Foreign) {
    forall k, n, aad, m :: f.seal(k, n, aad, m).Some? ==> f.unseal(k, n, aad, f.seal(k, n, aad, m).value) == Some(m)
  }

  datatype Mode = Off | EncRandom | EncMleDb

  datatype Envelope = Envelope(
    version: byte, mode: Mode, scopeId: Text, keyId: Option<Text>, nonce: Option<Nonce>, salt: Option<Key>,
    ciphertext: Bytes)

  const ENVELOPE_VERSION: byte := 1

  /******* Envelope codec *******/

  function Prefixed(b: Bytes): Bytes {
    Varu(|b|) + b
  }

  function TakePrefixed(cursor: Bytes): Outcome<(Bytes, Bytes)> {
    var len := DecodeVaru(cursor);
    if len.Err? then Err(InvalidEnvelope)
    else
      var (n, rest) := len.value;
      if |rest| < n then Err(InvalidEnvelope) else Ok((rest[..n], rest[n..]))
  }

  lemma PrefixedRoundTrip(b: Bytes, rest: Bytes)
    requires |b| < U64
    ensures TakePrefixed(Prefixed(b) + rest) == Ok((b, rest))
  {
    hide Varu, DecodeVaru;
    assert Prefixed(b) + rest == Varu(|b|) + (b + rest);
    VaruRoundTrip(|b|, b + rest);
    assert (b + rest)[..|b|] == b && (b + rest)[|b|..] == rest;
  }

  function TakeText(f: Foreign, cursor: Bytes): Outcome<(Text, Bytes)> {
    var (b, rest) :- TakePrefixed(cursor);
    if f.utf8(b) then Ok((b, rest)) else Err(InvalidEnvelope)
  }

  function OptText(t: Option<Text>): Bytes {
    match t
    case None => [0]
    case Some(text) => [1] + Prefixed(text)
  }

  function TakeOptText(f: Foreign, cursor: Bytes): Outcome<(Option<Text>, Bytes)> {
    if cursor == [] then Err(InvalidEnvelope)
    else if cursor[0] == 0 then Ok((None, cursor[1..]))
    else if cursor[0] == 1 then
      var (text, rest) :- TakeText(f, cursor[1..]);
      Ok((Some(text), rest))
    else Err(InvalidEnvelope)
  }

  function OptFixed(o: Option<Bytes>): Bytes {
    match o
    case None => [0]
    case Some(b) => [1] + b
  }

  function TakeOptFixed(cursor: Bytes, len: nat): (r: Outcome<(Option<Bytes>, Bytes)>)
    ensures r.Ok? && r.value.0.Some? ==> |r.value.0.value| == len
  {
    if cursor == [] then Err(InvalidEnvelope)
    else if cursor[0] == 0 then Ok((None, cursor[1..]))
    else if cursor[0] == 1 then
      if |cursor| - 1 < len then Err(InvalidEnvelope) else Ok((Some(cursor[1..1 + len]), cursor[1 + len..]))
    else Err(InvalidEnvelope)
  }

  lemma OptTextRoundTrip(f: Foreign, t: Option<Text>, rest: Bytes)
    requires t.Some? ==> f.utf8(t.value) && |t.value| < U64
    ensures TakeOptText(f, OptText(t) + rest) == Ok((t, rest))
  {
    hide Prefixed, TakePrefixed;
    var s := OptText(t) + rest;
    if t.Some? {
      assert s[1..] == Prefixed(t.value) + rest;
      PrefixedRoundTrip(t.value, rest);
    } else {
      assert s[1..] == rest;
    }
  }

  lemma OptFixedRoundTrip(o: Option<Bytes>, len: nat, rest: Bytes)
    requires o.Some? ==> |o.value| == len
    ensures TakeOptFixed(OptFixed(o) + rest, len) == Ok((o, rest))
  {
    var s := OptFixed(o) + rest;
    if o.Some? {
      assert s[1..1 + len] == o.value && s[1 + len..] == rest;
    } else {
      assert s[1..] == rest;
    }
  }

  function ModeCode(m: Mode): byte {
    match m
    case Off => 0
    case EncRandom => 1
    case EncMleDb => 2
  }

  function ModeFrom(b: byte): Outcome<Mode> {
    if b == 0 then Ok(Off)
    else if b == 1 then Ok(EncRandom)
    else if b == 2 then Ok(EncMleDb)
    else Err(InvalidEnvelope)
  }

  function StoredBytes(env: Envelope): Bytes {
    [env.version, ModeCode(env.mode)] + Prefixed(env.scopeId) + OptText(env.keyId) + OptFixed(env.nonce)
    + OptFixed(env.salt) + Prefixed(env.ciphertext)
  }

  function FromStoredBytes(f: Foreign, bytes: Bytes): Outcome<Envelope> {
    if bytes == [] || bytes[0] != ENVELOPE_VERSION then Err(InvalidEnvelope)
    else if |bytes| == 1 then Err(InvalidEnvelope)
    else
      var mode :- ModeFrom(bytes[1]);
      var (scopeId, rest1) :- TakeText(f, bytes[2..]);
      var (keyId, rest2) :- TakeOptText(f, rest1);
      var (nonce, rest3) :- TakeOptFixed(rest2, 12);
      var (salt, rest4) :- TakeOptFixed(rest3, 32);
      var (ciphertext, rest5) :- TakePrefixed(rest4);
      if rest5 != [] then Err(InvalidEnvelope)
      else Ok(Envelope(ENVELOPE_VERSION, mode, scopeId, keyId,
                       if nonce.Some? then Some(nonce.value) else None,
                       if salt.Some? then Some(salt.value) else None, ciphertext))
  }

  /** What an envelope must be for its stored form to be read back. */
  predicate Storable(f: Foreign, env: Envelope) {
    && env.version == ENVELOPE_VERSION && f.utf8(env.scopeId) && (env.keyId.Some? ==> f.utf8(env.keyId.value))
    && |StoredBytes(env)| < U64
  }

  lemma EnvelopeRoundTrip(f: Foreign, env: Envelope)
    requires Storable(f, env)
    ensures FromStoredBytes(f, StoredBytes(env)) == Ok(env)
  {
    hide Prefixed, TakePrefixed, OptText, OptFixed, TakeOptText, TakeOptFixed;
    LengthsFit(env);
    var cipher := Prefixed(env.ciphertext);
    var salted := OptFixed(env.salt) + cipher;
    var nonced := OptFixed(env.nonce) + salted;
    var keyed := OptText(env.keyId) + nonced;
    var bytes := StoredBytes(env);
    assert bytes == [env.version, ModeCode(env.mode)] + (Prefixed(env.scopeId) + keyed);
    assert bytes[2..] == Prefixed(env.scopeId) + keyed && cipher + [] == cipher;
    PrefixedRoundTrip(env.scopeId, keyed);
    OptTextRoundTrip(f, env.keyId, nonced);
    OptFixedRoundTrip(env.nonce, 12, salted);
    OptFixedRoundTrip(env.salt, 32, cipher);
    PrefixedRoundTrip(env.ciphertext, []);
  }

  /** An envelope on disk: version, mode, scope, key id, nonce, salt, ciphertext. */
  lemma EnvelopeOnDisk(nonce: Nonce)
    ensures StoredBytes(Envelope(1, EncRandom, [5], Some([6]), Some(nonce), None, [7, 8]))
      == [1, 1] + ([1] + [5]) + ([1] + ([1] + [6])) + ([1] + nonce) + [0] + ([2] + [7, 8])
    ensures ModeCode(Off) == 0 && ModeCode(EncMleDb) == 2
  {
  }

  /** Bytes after an envelope, or another version, are refused. */
  lemma ForeignBytesRefused(f: Foreign, env: Envelope, more: Bytes)
    requires Storable(f, env) && more != []
    ensures FromStoredBytes(f, StoredBytes(env) + more) == Err(InvalidEnvelope)
    ensures forall b: byte :: b != 1 ==> FromStoredBytes(f, [b] + StoredBytes(env)[1..]) == Err(InvalidEnvelope)
  {
    hide Prefixed, TakePrefixed, OptText, OptFixed, TakeOptText, TakeOptFixed;
    LengthsFit(env);
    var cipher := Prefixed(env.ciphertext) + more;
    var salted := OptFixed(env.salt) + cipher;
    var nonced := OptFixed(env.nonce) + salted;
    var keyed := OptText(env.keyId) + nonced;
    var bytes := StoredBytes(env) + more;
    assert bytes == [env.version, ModeCode(env.mode)] + (Prefixed(env.scopeId) + keyed);
    assert bytes[2..] == Prefixed(env.scopeId) + keyed;
    PrefixedRoundTrip(env.scopeId, keyed);
    OptTextRoundTrip(f, env.keyId, nonced);
    OptFixedRoundTrip(env.nonce, 12, salted);
    OptFixedRoundTrip(env.salt, 32, cipher);
    PrefixedRoundTrip(env.ciphertext, more);
  }

  lemma LengthsFit(env: Envelope)
    requires |StoredBytes(env)| < U64
    ensures |env.scopeId| < U64 && |env.ciphertext| < U64 && (env.keyId.Some? ==> |env.keyId.value| < U64)
  {
    hide Varu;
  }

  /******* Associated data *******/

  datatype Context = Context(dbId: Text, tableId: Text, columnId: Text, kind: ValueKind, codecVersion: u32)

  function Ascii(s: string): Bytes {
    seq(|s|, i requires 0 <= i < |s| => (s[i] as int) % 256)
  }

  function Normalize(f: Foreign, t: Text): Outcome<Text> {
    var trimmed := f.trim(t);
    if trimmed == [] then Err(InvalidIdentifier) else Ok(trimmed)
  }

  function Aad(f: Foreign, ctx: Context): Outcome<Bytes> {
    var dbId :- Normalize(f, ctx.dbId);
    Ok(Prefixed(Ascii("skeindb-encryption-aad-v1")) + Prefixed(dbId) + Prefixed(f.trim(ctx.tableId))
       + Prefixed(f.trim(ctx.columnId)) + [V.KindCode(ctx.kind)] + Le(ctx.codecVersion, 4))
  }

  lemma PrefixedSplits(a: Bytes, b: Bytes, x: Bytes, y: Bytes)
    requires |a| < U64 && |b| < U64 && Prefixed(a) + x == Prefixed(b) + y
    ensures a == b && x == y
  {
    hide Prefixed, TakePrefixed;
    PrefixedRoundTrip(a, x);
    PrefixedRoundTrip(b, y);
  }

  lemma KindCodeInjective(a: ValueKind, b: ValueKind)
    requires V.KindCode(a) == V.KindCode(b)
    ensures a == b
  {
  }

  /** The associated data determines the database, table, column, kind and codec version it was made for. */
  lemma AadBinds(f: Foreign, a: Context, b: Context)
    requires Aad(f, a).Ok? && Aad(f, b).Ok? && Aad(f, a) == Aad(f, b)
    requires |Aad(f, a).value| < U64
    ensures f.trim(a.dbId) == f.trim(b.dbId) && f.trim(a.tableId) == f.trim(b.tableId)
    ensures f.trim(a.columnId) == f.trim(b.columnId) && a.kind == b.kind && a.codecVersion == b.codecVersion
  {
    var tag := Ascii("skeindb-encryption-aad-v1");
    var da, ta, ca, db, tb, cb :=
      f.trim(a.dbId), f.trim(a.tableId), f.trim(a.columnId), f.trim(b.dbId), f.trim(b.tableId), f.trim(b.columnId);
    var va, vb := Le(a.codecVersion, 4), Le(b.codecVersion, 4);
    AadLengths(f, a);
    AadLengths(f, b);
    hide Prefixed, Ascii, Le;
    var enda, endb := [V.KindCode(a.kind)] + va, [V.KindCode(b.kind)] + vb;
    AadShape(f, a);
    AadShape(f, b);
    PrefixedSplits(tag, tag, Prefixed(da) + (Prefixed(ta) + (Prefixed(ca) + enda)),
                   Prefixed(db) + (Prefixed(tb) + (Prefixed(cb) + endb)));
    PrefixedSplits(da, db, Prefixed(ta) + (Prefixed(ca) + enda), Prefixed(tb) + (Prefixed(cb) + endb));
    PrefixedSplits(ta, tb, Prefixed(ca) + enda, Prefixed(cb) + endb);
    PrefixedSplits(ca, cb, enda, endb);
    assert enda[0] == endb[0] && enda[1..] == va && endb[1..] == vb;
    KindCodeInjective(a.kind, b.kind);
    Pow256Values();
    LeRoundTrip(a.codecVersion, 4);
    LeRoundTrip(b.codecVersion, 4);
  }

  lemma AadLengths(f: Foreign, c: Context)
    requires Aad(f, c).Ok? && |Aad(f, c).value| < U64
    ensures |f.trim(c.dbId)| < U64 && |f.trim(c.tableId)| < U64 && |f.trim(c.columnId)| < U64
    ensures |Ascii("skeindb-encryption-aad-v1")| < U64
  {
    hide Varu;
  }

  lemma AadShape(f: Foreign, c: Context)
    requires Aad(f, c).Ok?
    ensures Aad(f, c).value == Prefixed(Ascii("skeindb-encryption-aad-v1")) + (Prefixed(f.trim(c.dbId))
      + (Prefixed(f.trim(c.tableId)) + (Prefixed(f.trim(c.columnId)) + ([V.KindCode(c.kind)] + Le(c.codecVersion, 4)))))
  {
    hide Prefixed, Ascii, Le;
  }

  /******* Keys *******/

  datatype Profile = Profile(mode: Mode, activeKeyId: Option<Text>)

  /** The registered profiles by database, and the master keys by database and key id. */
  datatype Keyring = Keyring(profiles: map<Text, Profile>, keys: map<(Text, Text), Key>)

  function ProfileOf(ring: Keyring, dbId: Text): Profile {
    if dbId in ring.profiles then ring.profiles[dbId] else Profile(Off, None)
  }

  function LookupKey(ring: Keyring, dbId: Text, keyId: Text): Outcome<Key> {
    if (dbId, keyId) in ring.keys then Ok(ring.keys[(dbId, keyId)]) else Err(MissingKey)
  }

  const RANDOM_INFO := Ascii("skeindb-enc-random")
  const MLE_INFO := Ascii("skeindb-enc-mle-db")
  const MLE_NONCE_INFO := Ascii("skeindb-enc-mle-db-nonce")

  function AeadResult(r: Option<Bytes>): Outcome<Bytes> {
    if r.None? then Err(AeadFailed) else Ok(r.value)
  }

  /** Encrypting under the profile and active key in force; `nonce` is what the system's entropy gives. */
  function Encrypt(f: Foreign, ring: Keyring, ctx: Context, plaintext: Bytes, nonce: Nonce): Outcome<Envelope> {
    var dbId :- Normalize(f, ctx.dbId);
    if dbId !in ring.profiles then Err(UnknownDatabase)
    else
      var profile := ring.profiles[dbId];
      var aad :- Aad(f, ctx);
      if profile.mode == Off then Ok(Envelope(ENVELOPE_VERSION, Off, dbId, None, None, None, plaintext))
      else if profile.activeKeyId.None? then Err(MissingActiveKey)
      else
        var keyId := profile.activeKeyId.value;
        var master :- LookupKey(ring, dbId, keyId);
        if profile.mode == EncRandom then
          var ciphertext :- AeadResult(f.seal(f.deriveKey(master, None, RANDOM_INFO), nonce, aad, plaintext));
          Ok(Envelope(ENVELOPE_VERSION, EncRandom, dbId, Some(keyId), Some(nonce), None, ciphertext))
        else
          var salt := f.digest(plaintext);
          var key, derived := f.deriveKey(master, Some(salt), MLE_INFO), f.deriveNonce(master, Some(salt), MLE_NONCE_INFO);
          var ciphertext :- AeadResult(f.seal(key, derived, aad, plaintext));
          Ok(Envelope(ENVELOPE_VERSION, EncMleDb, dbId, Some(keyId), None, Some(salt), ciphertext))
  }

  function Decrypt(f: Foreign, ring: Keyring, ctx: Context, env: Envelope): Outcome<Bytes> {
    var dbId :- Normalize(f, ctx.dbId);
    if env.scopeId != dbId then Err(ScopeMismatch)
    else
      var aad :- Aad(f, ctx);
      if env.mode == Off then Ok(env.ciphertext)
      else if env.keyId.None? then Err(MissingEnvelopeKeyId)
      else if env.mode == EncRandom then
        if env.nonce.None? then Err(MissingNonce)
        else
          var master :- LookupKey(ring, env.scopeId, env.keyId.value);
          AeadResult(f.unseal(f.deriveKey(master, None, RANDOM_INFO), env.nonce.value, aad, env.ciphertext))
      else if env.salt.None? then Err(MissingDerivationSalt)
      else
        var master :- LookupKey(ring, env.scopeId, env.keyId.value);
        var key, derived := f.deriveKey(master, env.salt, MLE_INFO), f.deriveNonce(master, env.salt, MLE_NONCE_INFO);
        AeadResult(f.unseal(key, derived, aad, env.ciphertext))
  }

  /** What an encryption under the database's profile is: an envelope of the profile's mode and scope. Off holds the
      plaintext itself. EncRandom is sealed under a key derived from the active master key, with the nonce drawn for it.
      EncMleDb is sealed under a key and nonce derived from the active master key and the digest of the plaintext, so that
      the same plaintext always gives the same envelope. Either way the associated data is the context's. */
  ghost predicate SealsAs(f: Foreign, ring: Keyring, ctx: Context, plaintext: Bytes, nonce: Nonce, env: Envelope) {
    var db := f.trim(ctx.dbId);
    && db != [] && db in ring.profiles
    && env.version == 1 && env.scopeId == db && env.mode == ring.profiles[db].mode
    && match env.mode
       case Off => env.ciphertext == plaintext && env.keyId.None? && env.nonce.None? && env.salt.None?
       case EncRandom =>
         && SealedUnderActive(f, ring, ctx, None, RANDOM_INFO, nonce, plaintext, env)
         && env.nonce == Some(nonce) && env.salt.None?
       case EncMleDb =>
         && env.nonce.None? && env.salt == Some(f.digest(plaintext)) && env.keyId.Some? && (db, env.keyId.value) in ring.keys
         && SealedUnderActive(f, ring, ctx, env.salt, MLE_INFO,
              f.deriveNonce(ring.keys[(db, env.keyId.value)], env.salt, MLE_NONCE_INFO), plaintext, env)
  }

  /** The ciphertext is the plaintext sealed under a key derived from the database's active master key. */
  ghost predicate SealedUnderActive(f: Foreign, ring: Keyring, ctx: Context, salt: Option<Key>, info: Bytes, nonce: Nonce,
                                    plaintext: Bytes, env: Envelope)
  {
    var db := f.trim(ctx.dbId);
    && db in ring.profiles && env.keyId.Some? && env.keyId == ring.profiles[db].activeKeyId
    && (db, env.keyId.value) in ring.keys && Aad(f, ctx).Ok?
    && f.seal(f.deriveKey(ring.keys[(db, env.keyId.value)], salt, info), nonce, Aad(f, ctx).value, plaintext)
       == Some(env.ciphertext)
  }

  /** Encryption gives exactly that envelope, and fails exactly when there is none. */
  lemma EncryptIff(f: Foreign, ring: Keyring, ctx: Context, plaintext: Bytes, nonce: Nonce, env: Envelope)
    ensures Encrypt(f, ring, ctx, plaintext, nonce) == Ok(env) <==> SealsAs(f, ring, ctx, plaintext, nonce, env)
  {
    hide Aad;
    AadNeedsDatabase(f, ctx);
  }

  lemma AadNeedsDatabase(f: Foreign, ctx: Context)
    ensures Aad(f, ctx).Ok? <==> f.trim(ctx.dbId) != []
    ensures Aad(f, ctx).Err? ==> Aad(f, ctx).error == InvalidIdentifier
  {
    hide Prefixed, Ascii, Le;
  }

  /** Why an encryption fails, in the order of the checks. */
  lemma EncryptFails(f: Foreign, ring: Keyring, ctx: Context, plaintext: Bytes, nonce: Nonce)
    requires Encrypt(f, ring, ctx, plaintext, nonce).Err?
    ensures var db := f.trim(ctx.dbId);
      Encrypt(f, ring, ctx, plaintext, nonce).error ==
        if db == [] then InvalidIdentifier
        else if db !in ring.profiles then UnknownDatabase
        else if ring.profiles[db].activeKeyId.None? then MissingActiveKey
        else if (db, ring.profiles[db].activeKeyId.value) !in ring.keys then MissingKey
        else AeadFailed
  {
    hide Aad;
    AadNeedsDatabase(f, ctx);
  }

  /** In EncMleDb mode the same plaintext gives the same envelope whatever the nonce drawn; in EncRandom mode the envelope
      carries the nonce, so different nonces give different envelopes. */
  lemma SameOrFreshEnvelope(f: Foreign, ring: Keyring, ctx: Context, plaintext: Bytes, nonce: Nonce, other: Nonce)
    requires f.trim(ctx.dbId) in ring.profiles
    requires Encrypt(f, ring, ctx, plaintext, nonce).Ok? && Encrypt(f, ring, ctx, plaintext, other).Ok?
    ensures ring.profiles[f.trim(ctx.dbId)].mode != EncRandom ==>
      Encrypt(f, ring, ctx, plaintext, nonce) == Encrypt(f, ring, ctx, plaintext, other)
    ensures ring.profiles[f.trim(ctx.dbId)].mode == EncRandom && nonce != other ==>
      Encrypt(f, ring, ctx, plaintext, nonce) != Encrypt(f, ring, ctx, plaintext, other)
  {
    hide Aad, Encrypt;
    EncryptIff(f, ring, ctx, plaintext, nonce, Encrypt(f, ring, ctx, plaintext, nonce).value);
    EncryptIff(f, ring, ctx, plaintext, other, Encrypt(f, ring, ctx, plaintext, other).value);
  }

  /** What a decryption is: in its own scope only, with the key the envelope names, under the context's associated data. */
  ghost predicate Opens(f: Foreign, ring: Keyring, ctx: Context, env: Envelope, plaintext: Bytes) {
    var db := f.trim(ctx.dbId);
    && db != [] && env.scopeId == db && Aad(f, ctx).Ok?
    && match env.mode
       case Off => plaintext == env.ciphertext
       case EncRandom =>
         && env.keyId.Some? && env.nonce.Some? && (db, env.keyId.value) in ring.keys
         && f.unseal(f.deriveKey(ring.keys[(db, env.keyId.value)], None, RANDOM_INFO), env.nonce.value, Aad(f, ctx).value,
                     env.ciphertext) == Some(plaintext)
       case EncMleDb =>
         && env.keyId.Some? && env.salt.Some? && (db, env.keyId.value) in ring.keys
         && var master := ring.keys[(db, env.keyId.value)];
            f.unseal(f.deriveKey(master, env.salt, MLE_INFO), f.deriveNonce(master, env.salt, MLE_NONCE_INFO),
                     Aad(f, ctx).value, env.ciphertext) == Some(plaintext)
  }

  lemma DecryptIff(f: Foreign, ring: Keyring, ctx: Context, env: Envelope, plaintext: Bytes)
    ensures Decrypt(f, ring, ctx, env) == Ok(plaintext) <==> Opens(f, ring, ctx, env, plaintext)
  {
    hide Aad;
    AadNeedsDatabase(f, ctx);
  }

  /** The three purposes for which keys and nonces are derived are told apart. */
  lemma PurposesDiffer()
    ensures RANDOM_INFO != MLE_INFO && RANDOM_INFO != MLE_NONCE_INFO && MLE_INFO != MLE_NONCE_INFO
  {
    assert |RANDOM_INFO| == 18 && |MLE_INFO| == 18 && |MLE_NONCE_INFO| == 24;
    assert RANDOM_INFO[12] == 'r' as int && MLE_INFO[12] == 'm' as int;
  }

  /** `later` still has, unchanged, the key the envelope names, if it names one `ring` has. */
  predicate KeepsKey(ring: Keyring, later: Keyring, env: Envelope) {
    env.keyId.Some? && (env.scopeId, env.keyId.value) in ring.keys ==>
      && (env.scopeId, env.keyId.value) in later.keys
      && later.keys[(env.scopeId, env.keyId.value)] == ring.keys[(env.scopeId, env.keyId.value)]
  }

  /** What was encrypted is decrypted to the same bytes, now and under any later keys that keep the one used. */
  lemma EncryptThenDecrypt(f: Foreign, ring: Keyring, later: Keyring, ctx: Context, plaintext: Bytes, nonce: Nonce)
    requires Unseals(f) && Encrypt(f, ring, ctx, plaintext, nonce).Ok?
    requires KeepsKey(ring, later, Encrypt(f, ring, ctx, plaintext, nonce).value)
    ensures Decrypt(f, later, ctx, Encrypt(f, ring, ctx, plaintext, nonce).value) == Ok(plaintext)
  {
    hide Aad, Normalize;
  }

  /** A decryption that succeeded succeeds with the same bytes as long as its key is kept. */
  lemma DecryptKept(f: Foreign, ring: Keyring, later: Keyring, ctx: Context, env: Envelope)
    requires Decrypt(f, ring, ctx, env).Ok? && KeepsKey(ring, later, env)
    ensures Decrypt(f, later, ctx, env) == Decrypt(f, ring, ctx, env)
  {
    hide Aad, Normalize;
  }

  /** The envelope already uses the profile's mode and active key. */
  predicate Current(env: Envelope, profile: Profile) {
    profile.activeKeyId.Some? && env.keyId == profile.activeKeyId && env.mode == profile.mode
  }

  /** A new envelope under the active key, or nothing when the envelope is off or current. */
  function Reencrypt(f: Foreign, ring: Keyring, ctx: Context, env: Envelope, nonce: Nonce): Outcome<Option<Envelope>> {
    if env.mode == Off then Ok(None)
    else
      var dbId :- Normalize(f, ctx.dbId);
      if dbId !in ring.profiles then Err(UnknownDatabase)
      else
        var profile := ring.profiles[dbId];
        if profile.activeKeyId.None? then Err(MissingActiveKey)
        else if Current(env, profile) then Ok(None)
        else
          var plaintext :- Decrypt(f, ring, ctx, env);
          var renewed :- Encrypt(f, ring, ctx, plaintext, nonce);
          Ok(Some(renewed))
  }

  /** The envelope has the mode of its database's profile and, unless that is Off, its active key. */
  predicate UpToDate(f: Foreign, ring: Keyring, ctx: Context, env: Envelope) {
    var db := f.trim(ctx.dbId);
    && db in ring.profiles && env.mode == ring.profiles[db].mode
    && (env.mode != Off ==> env.keyId.Some? && env.keyId == ring.profiles[db].activeKeyId)
  }

  /** A rewritten envelope holds the same plaintext, sealed as the profile asks, and another pass leaves it alone. */
  lemma ReencryptKeepsPlaintext(f: Foreign, ring: Keyring, ctx: Context, env: Envelope, nonce: Nonce, other: Nonce)
    requires Unseals(f) && Reencrypt(f, ring, ctx, env, nonce).Ok? && Reencrypt(f, ring, ctx, env, nonce).value.Some?
    ensures var renewed := Reencrypt(f, ring, ctx, env, nonce).value.value;
      && Decrypt(f, ring, ctx, env).Ok? && Decrypt(f, ring, ctx, renewed) == Decrypt(f, ring, ctx, env)
      && Reencrypt(f, ring, ctx, renewed, other) == Ok(None)
      && SealsAs(f, ring, ctx, Decrypt(f, ring, ctx, env).value, nonce, renewed) && UpToDate(f, ring, ctx, renewed)
      && env.mode != Off && !UpToDate(f, ring, ctx, env)
  {
    hide Aad, Normalize, Decrypt;
    var plaintext := Decrypt(f, ring, ctx, env).value;
    EncryptThenDecrypt(f, ring, ring, ctx, plaintext, nonce);
    EncryptIff(f, ring, ctx, plaintext, nonce, Reencrypt(f, ring, ctx, env, nonce).value.value);
    NormalizeIs(f, ctx.dbId);
  }

  lemma NormalizeIs(f: Foreign, t: Text)
    ensures Normalize(f, t) == if f.trim(t) == [] then Err(InvalidIdentifier) else Ok(f.trim(t))
  {
  }

  /** An envelope is passed over exactly when it is off, or its database is known, has an active key, and the envelope is up
      to date with it. */
  lemma PassedOverIff(f: Foreign, ring: Keyring, ctx: Context, env: Envelope, nonce: Nonce)
    ensures Reencrypt(f, ring, ctx, env, nonce) == Ok(None) <==>
      env.mode == Off || (f.trim(ctx.dbId) != [] && UpToDate(f, ring, ctx, env))
  {
    hide Aad, Encrypt, Decrypt;
  }

  /** It is renewed exactly when it is neither, the database has an active key, and its plaintext can be had and sealed. */
  lemma RenewedIff(f: Foreign, ring: Keyring, ctx: Context, env: Envelope, nonce: Nonce, renewed: Envelope)
    ensures Reencrypt(f, ring, ctx, env, nonce) == Ok(Some(renewed)) <==>
      && env.mode != Off && !UpToDate(f, ring, ctx, env)
      && f.trim(ctx.dbId) in ring.profiles && ring.profiles[f.trim(ctx.dbId)].activeKeyId.Some?
      && exists plaintext ::
           Opens(f, ring, ctx, env, plaintext) && SealsAs(f, ring, ctx, plaintext, nonce, renewed)
  {
    hide Aad, Encrypt, Decrypt, Opens, SealsAs;
    forall plaintext
      ensures Decrypt(f, ring, ctx, env) == Ok(plaintext) <==> Opens(f, ring, ctx, env, plaintext)
    {
      DecryptIff(f, ring, ctx, env, plaintext);
    }
    if Decrypt(f, ring, ctx, env).Err? {
      assert forall plaintext :: !Opens(f, ring, ctx, env, plaintext);
    } else {
      var plaintext := Decrypt(f, ring, ctx, env).value;
      assert forall other :: Opens(f, ring, ctx, env, other) ==> other == plaintext;
      OpensNeedsDatabase(f, ring, ctx, env, plaintext);
      EncryptIff(f, ring, ctx, plaintext, nonce, renewed);
    }
  }

  lemma OpensNeedsDatabase(f: Foreign, ring: Keyring, ctx: Context, env: Envelope, plaintext: Bytes)
    ensures Opens(f, ring, ctx, env, plaintext) ==> f.trim(ctx.dbId) != []
  {
  }

  /******* Key management *******/

  datatype KeyOp =
    | Register(dbId: Text, keyId: Text, master: Key)
    | SetActive(dbId: Text, keyId: Text)
    | SetMode(dbId: Text, mode: Mode)
    | Rotate(dbId: Text, keyId: Text)
    | LoadProfiles(loaded: seq<StoredProfile>)

  /** A profile as it was persisted; no key comes with it. */
  datatype StoredProfile = StoredProfile(dbId: Text, mode: Mode, activeKeyId: Option<Text>)

  /** The catalog of loaded profiles: those without a database name are dropped, blank key ids are none, later ones win. */
  function Catalog(f: Foreign, loaded: seq<StoredProfile>): map<Text, Profile> {
    if loaded == [] then map[]
    else
      var before, last := Catalog(f, loaded[..|loaded| - 1]), loaded[|loaded| - 1];
      if f.trim(last.dbId) == [] then before else before[f.trim(last.dbId) := Profile(last.mode, LoadedKeyId(f, last))]
  }

  function LoadedKeyId(f: Foreign, p: StoredProfile): Option<Text> {
    if p.activeKeyId.Some? && f.trim(p.activeKeyId.value) != [] then Some(f.trim(p.activeKeyId.value)) else None
  }

  function WithActive(ring: Keyring, dbId: Text, keyId: Text): Keyring {
    ring.(profiles := ring.profiles[dbId := ProfileOf(ring, dbId).(activeKeyId := Some(keyId))])
  }

  function RegisterKey(f: Foreign, ring: Keyring, db: Text, key: Text, master: Key): (Keyring, Outcome<()>) {
    var dbId, keyId := Normalize(f, db), Normalize(f, key);
    if dbId.Err? || keyId.Err? then (ring, Err(InvalidIdentifier))
    else
      var ring' := ring.(keys := ring.keys[(dbId.value, keyId.value) := master]);
      var profile := ProfileOf(ring, dbId.value);
      (if profile.activeKeyId.None? then WithActive(ring', dbId.value, keyId.value) else ring', Ok(()))
  }

  function SetActiveKey(f: Foreign, ring: Keyring, db: Text, key: Text): (Keyring, Outcome<()>) {
    var dbId, keyId := Normalize(f, db), Normalize(f, key);
    if dbId.Err? || keyId.Err? then (ring, Err(InvalidIdentifier))
    else if (dbId.value, keyId.value) !in ring.keys then (ring, Err(MissingKey))
    else (WithActive(ring, dbId.value, keyId.value), Ok(()))
  }

  /** The profile is created before the checks, and stays when they fail. */
  function SetDatabaseMode(f: Foreign, ring: Keyring, db: Text, mode: Mode): (Keyring, Outcome<()>) {
    var dbId := Normalize(f, db);
    if dbId.Err? then (ring, Err(dbId.error))
    else
      var profile := ProfileOf(ring, dbId.value);
      var known := ring.(profiles := ring.profiles[dbId.value := profile]);
      if mode != Off && profile.activeKeyId.None? then (known, Err(MissingActiveKey))
      else if mode != Off && (dbId.value, profile.activeKeyId.value) !in ring.keys then (known, Err(MissingKey))
      else (ring.(profiles := ring.profiles[dbId.value := profile.(mode := mode)]), Ok(()))
  }

  function ApplyKeyOp(f: Foreign, ring: Keyring, op: KeyOp): (Keyring, Outcome<()>) {
    match op
    case Register(db, key, master) => RegisterKey(f, ring, db, key, master)
    case SetActive(db, key) => SetActiveKey(f, ring, db, key)
    case SetMode(db, mode) => SetDatabaseMode(f, ring, db, mode)
    case Rotate(db, key) => SetActiveKey(f, ring, db, key)
    case LoadProfiles(loaded) => (ring.(profiles := Catalog(f, loaded)), Ok(()))
  }

  function KeysAfter(f: Foreign, ring: Keyring, ops: seq<KeyOp>): Keyring {
    if ops == [] then ring else ApplyKeyOp(f, KeysAfter(f, ring, ops[..|ops| - 1]), ops[|ops| - 1]).0
  }

  /** What an operation needs in order to succeed. */
  predicate Accepts(f: Foreign, ring: Keyring, op: KeyOp) {
    match op
    case Register(db, key, _) => f.trim(db) != [] && f.trim(key) != []
    case SetActive(db, key) => f.trim(db) != [] && f.trim(key) != [] && (f.trim(db), f.trim(key)) in ring.keys
    case Rotate(db, key) => f.trim(db) != [] && f.trim(key) != [] && (f.trim(db), f.trim(key)) in ring.keys
    case SetMode(db, mode) =>
      && f.trim(db) != []
      && (mode != Off ==>
            && f.trim(db) in ring.profiles && ring.profiles[f.trim(db)].activeKeyId.Some?
            && (f.trim(db), ring.profiles[f.trim(db)].activeKeyId.value) in ring.keys)
    case LoadProfiles(_) => true
  }

  /** What a successful operation does: a registration adds its key and makes it active only where none is; an activation or
      rotation changes the active key and a mode change the mode, of that database alone; no key is ever lost. */
  lemma KeyOpDoes(f: Foreign, ring: Keyring, op: KeyOp)
    requires !op.LoadProfiles?
    ensures var (ring', r) := ApplyKeyOp(f, ring, op);
      var db := f.trim(op.dbId);
      && (r.Ok? <==> Accepts(f, ring, op))
      && ring'.keys == (if op.Register? && r.Ok? then ring.keys[(db, f.trim(op.keyId)) := op.master] else ring.keys)
      && ring'.profiles - {db} == ring.profiles - {db}
      && (r.Ok? ==> db in ring'.profiles && var was, now := ProfileOf(ring, db), ring'.profiles[db];
            match op
            case Register(_, key, _) =>
              now == was || (was.activeKeyId.None? && now.activeKeyId == Some(f.trim(key)) && now.mode == was.mode)
            case SetActive(_, key) => now.activeKeyId == Some(f.trim(key)) && now.mode == was.mode
            case Rotate(_, key) => now.activeKeyId == Some(f.trim(key)) && now.mode == was.mode
            case SetMode(_, mode) => now.activeKeyId == was.activeKeyId && now.mode == mode)
      && (r.Ok? && op.Register? ==> ring'.profiles[db].activeKeyId.Some?)
      && (r.Err? && !op.SetMode? ==> ring' == ring)
  {
    NormalizeIs(f, op.dbId);
  }

  predicate LastNamed(f: Foreign, loaded: seq<StoredProfile>, db: Text, i: int) {
    && 0 <= i < |loaded| && db != [] && f.trim(loaded[i].dbId) == db
    && forall j :: i < j < |loaded| ==> f.trim(loaded[j].dbId) != db
  }

  /** Loading keeps, for each named database, the last profile given for it, with its names trimmed and a blank key id
      dropped, and no other. */
  lemma {:induction false} LoadedProfiles(f: Foreign, loaded: seq<StoredProfile>, db: Text)
    ensures db in Catalog(f, loaded) <==>
      db != [] && exists i :: 0 <= i < |loaded| && f.trim(loaded[i].dbId) == db
    ensures forall i :: LastNamed(f, loaded, db, i) ==>
        && db in Catalog(f, loaded)
        && Catalog(f, loaded)[db].mode == loaded[i].mode
        && (Catalog(f, loaded)[db].activeKeyId.Some? <==>
              loaded[i].activeKeyId.Some? && f.trim(loaded[i].activeKeyId.value) != [])
        && (Catalog(f, loaded)[db].activeKeyId.Some? ==>
              Catalog(f, loaded)[db].activeKeyId.value == f.trim(loaded[i].activeKeyId.value))
  {
    if loaded != [] {
      var n := |loaded| - 1;
      LoadedProfiles(f, loaded[..n], db);
      assert loaded == loaded[..n] + [loaded[n]];
      forall i | LastNamed(f, loaded, db, i) && i < n
        ensures LastNamed(f, loaded[..n], db, i)
      {
        assert f.trim(loaded[n].dbId) != db;
      }
    }
  }

  /** The database's active key is registered, and it has one if it encrypts. */
  predicate ReadyFor(ring: Keyring, db: Text) {
    db in ring.profiles ==>
      && (ring.profiles[db].mode != Off ==> ring.profiles[db].activeKeyId.Some?)
      && (ring.profiles[db].activeKeyId.Some? ==> (db, ring.profiles[db].activeKeyId.value) in ring.keys)
  }

  predicate LacksKey(r: Outcome<Envelope>) {
    r == Err(MissingActiveKey) || r == Err(MissingKey)
  }

  /** Encrypting fails for want of a key exactly in a known database that encrypts and whose active key is not there. */
  lemma LacksKeyIff(f: Foreign, ring: Keyring, ctx: Context, plaintext: Bytes, nonce: Nonce)
    ensures LacksKey(Encrypt(f, ring, ctx, plaintext, nonce)) <==>
      && Normalize(f, ctx.dbId).Ok? && f.trim(ctx.dbId) in ring.profiles
      && ring.profiles[f.trim(ctx.dbId)].mode != Off && !ReadyFor(ring, f.trim(ctx.dbId))
  {
  }

  lemma KeyOpKeepsReady(f: Foreign, ring: Keyring, op: KeyOp, db: Text)
    requires ReadyFor(ring, db) && !op.LoadProfiles?
    ensures ReadyFor(ApplyKeyOp(f, ring, op).0, db)
  {
    hide Normalize;
  }

  /** Over any run of registrations, activations, mode changes, rotations and profile loads, a database is without its key
      only because some load brought its profile in without it, and nothing since has mended that. */
  lemma {:induction false} LackingComesFromLoading(f: Foreign, ops: seq<KeyOp>, db: Text)
    requires !ReadyFor(KeysAfter(f, Keyring(map[], map[]), ops), db)
    ensures exists i: nat :: (
      && i < |ops| && ops[i].LoadProfiles?
      && forall j :: i < j <= |ops| ==> !ReadyFor(KeysAfter(f, Keyring(map[], map[]), ops[..j]), db))
    decreases |ops|
  {
    hide ApplyKeyOp, ReadyFor;
    NothingToBeReadyFor(db);
    if ops != [] {
      var n := |ops| - 1;
      assert ops[..|ops|] == ops;
      if ops[n].LoadProfiles? {
        forall j | n < j <= |ops|
          ensures !ReadyFor(KeysAfter(f, Keyring(map[], map[]), ops[..j]), db)
        {
          assert ops[..j] == ops;
        }
      } else {
        if ReadyFor(KeysAfter(f, Keyring(map[], map[]), ops[..n]), db) {
          KeyOpKeepsReady(f, KeysAfter(f, Keyring(map[], map[]), ops[..n]), ops[n], db);
        }
        LackingComesFromLoading(f, ops[..n], db);
        var i: nat :| i < n && ops[..n][i].LoadProfiles?
          && forall j :: i < j <= n ==> !ReadyFor(KeysAfter(f, Keyring(map[], map[]), ops[..n][..j]), db);
        forall j | i < j <= |ops|
          ensures !ReadyFor(KeysAfter(f, Keyring(map[], map[]), ops[..j]), db)
        {
          if j <= n {
            assert ops[..n][..j] == ops[..j];
          }
        }
      }
    }
  }

  lemma NothingToBeReadyFor(db: Text)
    ensures ReadyFor(Keyring(map[], map[]), db)
  {
  }

  /** Without a load in the run, encrypting never fails for want of a key. */
  lemma NeverWithoutKey(f: Foreign, ops: seq<KeyOp>, ctx: Context, plaintext: Bytes, nonce: Nonce)
    requires forall i :: 0 <= i < |ops| ==> !ops[i].LoadProfiles?
    ensures !LacksKey(Encrypt(f, KeysAfter(f, Keyring(map[], map[]), ops), ctx, plaintext, nonce))
  {
    hide KeysAfter, Encrypt, ReadyFor;
    var ring := KeysAfter(f, Keyring(map[], map[]), ops);
    LacksKeyIff(f, ring, ctx, plaintext, nonce);
    if !ReadyFor(ring, f.trim(ctx.dbId)) {
      LackingComesFromLoading(f, ops, f.trim(ctx.dbId));
    }
  }

  /** A profile that encrypts, loaded where its key is not registered, does lack it. */
  lemma LoadedWithoutKey(f: Foreign, ring: Keyring, ctx: Context, keyId: Text, plaintext: Bytes, nonce: Nonce)
    requires Normalize(f, ctx.dbId).Ok? && Normalize(f, keyId).Ok? && (f.trim(ctx.dbId), f.trim(keyId)) !in ring.keys
    ensures var loaded := LoadProfiles([StoredProfile(ctx.dbId, EncRandom, Some(keyId))]);
      Encrypt(f, ApplyKeyOp(f, ring, loaded).0, ctx, plaintext, nonce) == Err(MissingKey)
  {
    var p := StoredProfile(ctx.dbId, EncRandom, Some(keyId));
    assert [p][..0] == [];
    assert Catalog(f, [p]) == map[f.trim(ctx.dbId) := Profile(EncRandom, Some(f.trim(keyId)))];
  }

  /** A mode change that fails leaves the keys as they were exactly when the database was already known; otherwise it has
      registered it with encryption off. */
  lemma FailedSetModeChanges(f: Foreign, ring: Keyring, db: Text, mode: Mode)
    requires SetDatabaseMode(f, ring, db, mode).1.Err?
    ensures var ring' := SetDatabaseMode(f, ring, db, mode).0;
      && (ring' == ring <==> Normalize(f, db).Err? || Normalize(f, db).value in ring.profiles)
      && (ring' != ring ==> ProfileOf(ring', Normalize(f, db).value) == Profile(Off, None))
  {
  }

  /** Asking for encryption in a database nobody has heard of fails, and from then on its values are stored as they are. */
  lemma FailedSetModeStoresPlaintext(f: Foreign, ctx: Context, plaintext: Bytes, nonce: Nonce)
    requires Normalize(f, ctx.dbId).Ok?
    ensures var none := Keyring(map[], map[]);
      var (ring, r) := SetDatabaseMode(f, none, ctx.dbId, EncRandom);
      && r == Err(MissingActiveKey)
      && Encrypt(f, none, ctx, plaintext, nonce) == Err(UnknownDatabase)
      && Encrypt(f, ring, ctx, plaintext, nonce)
           == Ok(Envelope(ENVELOPE_VERSION, Off, f.trim(ctx.dbId), None, None, None, plaintext))
  {
  }

  /** The operation registers key bytes under the very name the envelope uses. */
  predicate Replaces(f: Foreign, op: KeyOp, env: Envelope) {
    && op.Register? && env.keyId.Some?
    && Normalize(f, op.dbId) == Ok(env.scopeId) && Normalize(f, op.keyId) == Ok(env.keyId.value)
  }

  lemma KeyOpKeepsKey(f: Foreign, ring: Keyring, op: KeyOp, env: Envelope)
    requires !Replaces(f, op, env)
    ensures KeepsKey(ring, ApplyKeyOp(f, ring, op).0, env)
  {
    hide Normalize;
  }

  /** No rotation, activation, mode change or registration of other keys ever makes an envelope unreadable. */
  lemma {:induction false} DecryptSurvives(f: Foreign, ring: Keyring, ops: seq<KeyOp>, ctx: Context, env: Envelope)
    requires Decrypt(f, ring, ctx, env).Ok?
    requires forall i :: 0 <= i < |ops| ==> !Replaces(f, ops[i], env)
    ensures Decrypt(f, KeysAfter(f, ring, ops), ctx, env) == Decrypt(f, ring, ctx, env)
    decreases |ops|
  {
    hide Decrypt, ApplyKeyOp, Replaces;
    if ops != [] {
      var n := |ops| - 1;
      DecryptSurvives(f, ring, ops[..n], ctx, env);
      var later := KeysAfter(f, ring, ops[..n]);
      KeyOpKeepsKey(f, later, ops[n], env);
      DecryptKept(f, later, ApplyKeyOp(f, later, ops[n]).0, ctx, env);
    }
  }

  /** One more, in saturating u64 arithmetic. */
  function Bump(n: u64): u64 {
    if n < U64 - 1 then n + 1 else n
  }

  datatype Counters = Counters(inspected: u64, rewritten: u64, off: u64, current: u64)

  /** Every envelope inspected without an error was rewritten, off, or current. */
  predicate Balanced(c: Counters) {
    c.inspected == c.rewritten + c.off + c.current
  }

  /** The counters after one envelope was inspected without an error. */
  ghost predicate CountedOne(before: Counters, after: Counters, rewrote: bool) {
    && after.inspected == Bump(before.inspected)
    && if rewrote then after == before.(inspected := after.inspected, rewritten := Bump(before.rewritten))
       else || after == before.(inspected := after.inspected, off := Bump(before.off))
            || after == before.(inspected := after.inspected, current := Bump(before.current))
  }

  /** The counters after one envelope: rewritten, off, current, or, when it ended in an error, only inspected. */
  function Counted(before: Counters, env: Envelope, r: Outcome<Option<Envelope>>): Counters {
    var c := before.(inspected := Bump(before.inspected));
    if r.Err? then c
    else if r.value.Some? then c.(rewritten := Bump(c.rewritten))
    else if env.mode == Off then c.(off := Bump(c.off))
    else c.(current := Bump(c.current))
  }

  /** One envelope goes into one count: rewritten when it was renewed, off or current when it was passed over as such,
      none when it met an error; the other counts stay. A count stays at 2^64 - 1 once it is there. */
  lemma CountsOnce(f: Foreign, ring: Keyring, ctx: Context, env: Envelope, nonce: Nonce, before: Counters)
    ensures var r, after := Reencrypt(f, ring, ctx, env, nonce), Counted(before, env, Reencrypt(f, ring, ctx, env, nonce));
      var top := 0xFFFF_FFFF_FFFF_FFFF;
      && (after.inspected != before.inspected <==> before.inspected < top)
      && (after.rewritten != before.rewritten <==> before.rewritten < top && r.Ok? && r.value.Some?)
      && (after.off != before.off <==> before.off < top && env.mode == Off)
      && (after.current != before.current <==>
            before.current < top && env.mode != Off && f.trim(ctx.dbId) != [] && UpToDate(f, ring, ctx, env))
      && after.inspected - before.inspected <= 1 && after.rewritten - before.rewritten <= 1
      && after.off - before.off <= 1 && after.current - before.current <= 1
      && before.inspected <= after.inspected && before.rewritten <= after.rewritten
      && before.off <= after.off && before.current <= after.current
  {
    hide Encrypt, Decrypt, Normalize, Reencrypt, UpToDate;
    PassedOverIff(f, ring, ctx, env, nonce);
  }

  /** The key an envelope that is not off is compared against, once its database is known to have one. */
  function ActiveKey(f: Foreign, ring: Keyring, ctx: Context): Option<Text> {
    if Normalize(f, ctx.dbId).Ok? && f.trim(ctx.dbId) in ring.profiles
    then ring.profiles[f.trim(ctx.dbId)].activeKeyId
    else None
  }

  class ReencryptionProgress {
    var previousKeyId: Option<Text>
    var newKeyId: Option<Text>
    var counters: Counters

    constructor ()
      ensures counters == Counters(0, 0, 0, 0)
    {
      previousKeyId, newKeyId, counters := None, None, Counters(0, 0, 0, 0);
    }
  }

  datatype RotationPlan = RotationPlan(dbId: Text, previousKeyId: Option<Text>, newKeyId: Text, mode: Mode)

  class DatabaseKeyManager {
    const f: Foreign
    var profiles: map<Text, Profile>
    var keys: map<(Text, Text), Key>

    function Ring(): Keyring
      reads this
    {
      Keyring(profiles, keys)
    }

    constructor (f: Foreign)
      ensures this.f == f && Ring() == Keyring(map[], map[])
    {
      this.f := f;
      profiles, keys := map[], map[];
    }

    method RegisterDatabaseKey(db: Text, key: Text, master: Key) returns (r: Outcome<()>)
      modifies this
      ensures (Ring(), r) == ApplyKeyOp(f, old(Ring()), Register(db, key, master))
    {
      var dbId :- Normalize(f, db);
      var keyId :- Normalize(f, key);
      keys := keys[(dbId, keyId) := master];
      var profile := if dbId in profiles then profiles[dbId] else Profile(Off, None);
      if profile.activeKeyId.None? {
        profiles := profiles[dbId := profile.(activeKeyId := Some(keyId))];
      }
      return Ok(());
    }

    method SetActiveDatabaseKey(db: Text, key: Text) returns (r: Outcome<()>)
      modifies this
      ensures (Ring(), r) == ApplyKeyOp(f, old(Ring()), SetActive(db, key))
    {
      var dbId :- Normalize(f, db);
      var keyId :- Normalize(f, key);
      if (dbId, keyId) !in keys {
        return Err(MissingKey);
      }
      var profile := if dbId in profiles then profiles[dbId] else Profile(Off, None);
      profiles := profiles[dbId := profile.(activeKeyId := Some(keyId))];
      return Ok(());
    }

    method SetDatabaseMode(db: Text, mode: Mode) returns (r: Outcome<()>)
      modifies this
      ensures (Ring(), r) == ApplyKeyOp(f, old(Ring()), SetMode(db, mode))
    {
      var dbId :- Normalize(f, db);
      if dbId !in profiles {
        profiles := profiles[dbId := Profile(Off, None)];
      }
      assert profiles == old(profiles)[dbId := ProfileOf(old(Ring()), dbId)];
      if mode != Off {
        if profiles[dbId].activeKeyId.None? {
          return Err(MissingActiveKey);
        }
        if (dbId, profiles[dbId].activeKeyId.value) !in keys {
          return Err(MissingKey);
        }
      }
      profiles := profiles[dbId := profiles[dbId].(mode := mode)];
      assert profiles == old(profiles)[dbId := ProfileOf(old(Ring()), dbId).(mode := mode)];
      return Ok(());
    }

    /** Replaces the profiles by persisted ones; the keys stay as they are. */
    method LoadProfiles(loaded: seq<StoredProfile>)
      modifies this
      ensures Ring() == ApplyKeyOp(f, old(Ring()), KeyOp.LoadProfiles(loaded)).0
    {
      profiles := map[];
      assert loaded[..0] == [];
      for i := 0 to |loaded|
        invariant profiles == Catalog(f, loaded[..i]) && keys == old(keys)
      {
        assert loaded[..i + 1][..i] == loaded[..i];
        var p := loaded[i];
        var db := f.trim(p.dbId);
        if db != [] {
          profiles := profiles[db := Profile(p.mode, LoadedKeyId(f, p))];
        }
      }
      assert loaded[..|loaded|] == loaded;
    }

    /** Makes a registered key the active one; the plan records the key it replaces. */
    method RotateActiveKey(db: Text, key: Text) returns (r: Outcome<RotationPlan>)
      modifies this
      ensures Ring() == ApplyKeyOp(f, old(Ring()), Rotate(db, key)).0
      ensures r.Ok? <==> ApplyKeyOp(f, old(Ring()), Rotate(db, key)).1.Ok?
      ensures r.Ok? ==> var was := ProfileOf(old(Ring()), f.trim(db));
        r.value == RotationPlan(f.trim(db), was.activeKeyId, f.trim(key), was.mode)
    {
      var dbId :- Normalize(f, db);
      var keyId :- Normalize(f, key);
      if (dbId, keyId) !in keys {
        return Err(MissingKey);
      }
      var profile := if dbId in profiles then profiles[dbId] else Profile(Off, None);
      profiles := profiles[dbId := profile.(activeKeyId := Some(keyId))];
      return Ok(RotationPlan(dbId, profile.activeKeyId, keyId, profile.mode));
    }

    /** Re-encrypts one envelope unless it is off or current, and counts it; an error leaves it counted as inspected only. */
    method ReencryptEnvelope(ctx: Context, env: Envelope, progress: ReencryptionProgress, nonce: Nonce)
      returns (r: Outcome<Option<Envelope>>)
      modifies progress
      ensures r == Reencrypt(f, Ring(), ctx, env, nonce)
      ensures progress.counters == Counted(old(progress.counters), env, r)
      ensures r.Ok? ==> CountedOne(old(progress.counters), progress.counters, r.value.Some?)
      ensures (progress.previousKeyId, progress.newKeyId) ==
        if env.mode != Off && ActiveKey(f, Ring(), ctx).Some? then (env.keyId, ActiveKey(f, Ring(), ctx))
        else (old(progress.previousKeyId), old(progress.newKeyId))
      ensures r.Ok? && env.mode != Off ==>
        && f.trim(ctx.dbId) in profiles && progress.newKeyId == profiles[f.trim(ctx.dbId)].activeKeyId
        && progress.newKeyId.Some? && progress.previousKeyId == env.keyId
    {
      hide Aad, Encrypt, Decrypt;
      progress.counters := progress.counters.(inspected := Bump(progress.counters.inspected));
      if env.mode == Off {
        progress.counters := progress.counters.(off := Bump(progress.counters.off));
        return Ok(None);
      }
      var dbId :- Normalize(f, ctx.dbId);
      if dbId !in profiles {
        return Err(UnknownDatabase);
      }
      var profile := profiles[dbId];
      if profile.activeKeyId.None? {
        return Err(MissingActiveKey);
      }
      progress.previousKeyId, progress.newKeyId := env.keyId, profile.activeKeyId;
      if env.keyId == profile.activeKeyId && env.mode == profile.mode {
        progress.counters := progress.counters.(current := Bump(progress.counters.current));
        return Ok(None);
      }
      var plaintext :- Decrypt(f, Ring(), ctx, env);
      var renewed :- Encrypt(f, Ring(), ctx, plaintext, nonce);
      progress.counters := progress.counters.(rewritten := Bump(progress.counters.rewritten));
      return Ok(Some(renewed));
    }
  }
}

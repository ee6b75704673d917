/** The write-ahead log: record codec, scanning, and the writer across appends, crashes and reopens. */
module Wal {
  import opened Wrappers
  import opened Codec
  import F = FileHeader

  type Hash32 = b: Bytes | |b| == 32 witness seq(32, _ => 0)

  datatype Version = V1 | V2(prevHash: Hash32, recHash: Hash32)

  datatype Body = BeginTxn | Mutation(payload: Bytes) | CommitTxn | AbortTxn

  /** A log record; its type and version bytes follow from `body` and `version`. */
  datatype Record = Record(version: Version, flags: u16, lsn: u64, txnId: u64, body: Body)

  const V1_LEN: nat := 20
  const V2_LEN: nat := 84

  /******* Record codec *******/

  function BodyCode(b: Body): byte {
    match b
    case BeginTxn => 1
    case Mutation(_) => 2
    case CommitTxn => 3
    case AbortTxn => 4
  }

  function FixedFields(r: Record): (b: Bytes)
    ensures |b| == V1_LEN
  {
    [BodyCode(r.body), if r.version.V1? then 1 else 2] + Le(r.flags, 2) + Le(r.lsn, 8) + Le(r.txnId, 8)
  }

  function HashFields(v: Version): Bytes {
    if v.V2? then v.prevHash + v.recHash else []
  }

  function BodyBytes(b: Body): Bytes {
    if b.Mutation? then Varu(|b.payload|) + b.payload else []
  }

  function Encode(r: Record): (b: Bytes)
    ensures |b| >= V1_LEN
  {
    FixedFields(r) + HashFields(r.version) + BodyBytes(r.body)
  }

  function DecodeBody(code: byte, rest: Bytes): Outcome<Body> {
    if code == 2 then
      var parsed := DecodeVaru(rest);
      if parsed.Err? then Err(if parsed.error == CoreEof then FormatEof else TrailingBytes)
      else
        var (len, tail) := parsed.value;
        if |tail| < len then Err(FormatEof)
        else if tail[len..] != [] then Err(TrailingBytes)
        else Ok(Mutation(tail[..len]))
    else if rest != [] then Err(TrailingBytes)
    else Ok(if code == 1 then BeginTxn else if code == 3 then CommitTxn else AbortTxn)
  }

  function Decode(p: Bytes): Outcome<Record> {
    if |p| < V1_LEN then Err(FormatEof)
    else if p[0] < 1 || p[0] > 4 then Err(InvalidRecordType)
    else if p[1] != 1 && p[1] != 2 then Err(UnsupportedRecordVersion)
    else if p[1] == 2 && |p| < V2_LEN then Err(FormatEof)
    else
      Pow256Values();
      var version := if p[1] == 1 then V1 else V2(p[20..52], p[52..84]);
      var body :- DecodeBody(p[0], p[if p[1] == 1 then V1_LEN else V2_LEN..]);
      Ok(Record(version, LeAt(p, 2, 2), LeAt(p, 4, 8), LeAt(p, 12, 8), body))
  }

  lemma BodyRoundTrip(b: Body)
    requires b.Mutation? ==> |b.payload| < U64
    ensures DecodeBody(BodyCode(b), BodyBytes(b)) == Ok(b)
  {
    if b.Mutation? {
      VaruRoundTrip(|b.payload|, b.payload);
      assert b.payload[..|b.payload|] == b.payload && b.payload[|b.payload|..] == [];
      assert Varu(|b.payload|) + b.payload == BodyBytes(b);
    }
  }

  lemma FixedFieldsParse(r: Record, rest: Bytes)
    ensures var p := FixedFields(r) + rest;
      && p[0] == BodyCode(r.body) && p[1] == (if r.version.V1? then 1 else 2)
      && LeAt(p, 2, 2) == r.flags && LeAt(p, 4, 8) == r.lsn && LeAt(p, 12, 8) == r.txnId
      && p[V1_LEN..] == rest
  {
    hide Le, FromLe, BodyCode;
    Pow256Values();
    var p := FixedFields(r) + rest;
    var flags, lsn, txn := Le(r.flags, 2), Le(r.lsn, 8), Le(r.txnId, 8);
    assert p[2..4] == flags && p[4..12] == lsn && p[12..20] == txn;
    LeRoundTrip(r.flags, 2);
    LeRoundTrip(r.lsn, 8);
    LeRoundTrip(r.txnId, 8);
  }

  /** Decoding an encoded record gives it back. */
  lemma RecordRoundTrip(r: Record)
    requires r.body.Mutation? ==> |r.body.payload| < U64
    ensures Decode(Encode(r)) == Ok(r)
  {
    hide FixedFields, DecodeBody, BodyBytes, LeAt;
    var p, tail := Encode(r), HashFields(r.version) + BodyBytes(r.body);
    assert p == FixedFields(r) + tail;
    FixedFieldsParse(r, tail);
    BodyRoundTrip(r.body);
    if r.version.V2? {
      assert tail[..32] == r.version.prevHash && tail[32..64] == r.version.recHash && tail[64..] == BodyBytes(r.body);
      assert p[20..52] == tail[..32] && p[52..84] == tail[32..64] && p[84..] == tail[64..];
    }
  }

  /** A body is accepted exactly as its kind's bytes: nothing for a Begin, Commit or Abort, and for a Mutation a length and
      that many bytes, with nothing after them. */
  lemma BodyIff(code: byte, rest: Bytes, b: Body)
    requires 1 <= code <= 4
    ensures DecodeBody(code, rest) == Ok(b) <==>
      && code == BodyCode(b)
      && if b.Mutation? then
           DecodeVaru(rest) == Ok((|b.payload|, b.payload))
         else rest == []
  {
    hide DecodeVaru;
    if b.Mutation? && DecodeBody(code, rest) == Ok(b) {
      var (len, tail) := DecodeVaru(rest).value;
      assert tail[len..] == [] && |tail| == len;
      assert tail[..len] == tail;
    }
    if b.Mutation? {
      assert b.payload[..|b.payload|] == b.payload && b.payload[|b.payload|..] == [];
    }
  }

  /** A record is accepted exactly when its fields are those of its encoding; only a mutation's length may be written in
      more bytes than it needs. */
  lemma DecodeIff(p: Bytes, r: Record)
    ensures Decode(p) == Ok(r) <==>
      var at := if r.version.V1? then V1_LEN else V2_LEN;
      && |p| >= at && p[..at] == FixedFields(r) + HashFields(r.version)
      && DecodeBody(BodyCode(r.body), p[at..]) == Ok(r.body)
  {
    hide Le, FromLe, DecodeBody;
    Pow256Values();
    var at := if r.version.V1? then V1_LEN else V2_LEN;
    if Decode(p) == Ok(r) {
      BodyIff(p[0], p[at..], r.body);
      LeOfFromLe(p[2..4]);
      LeOfFromLe(p[4..12]);
      LeOfFromLe(p[12..20]);
      assert p[..20] == [p[0], p[1]] + p[2..4] + p[4..12] + p[12..20];
      if r.version.V2? {
        assert p[..at] == p[..20] + (p[20..52] + p[52..84]);
      } else {
        assert p[..at] == p[..20] + [];
      }
    }
    if |p| >= at && p[..at] == FixedFields(r) + HashFields(r.version)
       && DecodeBody(BodyCode(r.body), p[at..]) == Ok(r.body) {
      assert p == FixedFields(r) + (HashFields(r.version) + p[at..]);
      FixedFieldsParse(r, HashFields(r.version) + p[at..]);
      if r.version.V2? {
        assert p[20..52] == r.version.prevHash && p[52..84] == r.version.recHash;
      }
    }
  }

  /** A mutation on disk. */
  lemma RecordBytes()
    ensures Encode(Record(V1, 0x0201, 3, 0x0504, Mutation([9, 8]))) ==
      [2, 1, 1, 2, 3, 0, 0, 0, 0, 0, 0, 0, 4, 5, 0, 0, 0, 0, 0, 0, 2, 9, 8]
    ensures BodyCode(BeginTxn) == 1 && BodyCode(CommitTxn) == 3 && BodyCode(AbortTxn) == 4
  {
    assert Le(0x0201, 2) == [1, 2];
    EightBytes(3);
    EightBytes(0x0504);
  }

  lemma EightBytes(n: nat)
    requires n < 0x1_0000
    ensures Le(n, 8) == [n % 256, n / 256, 0, 0, 0, 0, 0, 0]
  {
    assert Le(0, 2) == [0, 0] && Le(0, 4) == [0, 0, 0, 0] && Le(0, 6) == [0, 0, 0, 0, 0, 0];
    assert Le(n / 256, 7) == [n / 256] + Le(0, 6);
  }

  /******* Scanning *******/

  /** What a scan finds: the records of the valid prefix, its length, and the error that ended it early. */
  datatype Scan = Scan(records: seq<Record>, validBytes: nat, tailError: Option<Error>)

  function NextRecord(crc: Crc, rest: Bytes): (r: Outcome<(Record, Bytes)>)
    ensures r.Ok? ==> |r.value.1| < |rest| && r.value.1 == rest[|rest| - |r.value.1|..]
  {
    var (payload, after) :- DecodeFrame(crc, rest);
    var rec :- Decode(payload);
    Ok((rec, after))
  }

  function ScanFrom(crc: Crc, rest: Bytes): (s: Scan)
    ensures s.validBytes <= |rest|
    ensures s.tailError.None? ==> s.validBytes == |rest|
    decreases |rest|
  {
    if rest == [] then Scan([], 0, None)
    else
      var next := NextRecord(crc, rest);
      if next.Err? then Scan([], 0, Some(next.error))
      else
        var s := ScanFrom(crc, next.value.1);
        Scan([next.value.0] + s.records, |rest| - |next.value.1| + s.validBytes, s.tailError)
  }

  /** A lenient scan stops at the first bad frame; a strict one fails there. */
  function ScanLog(crc: Crc, bytes: Bytes, strict: bool): Outcome<Scan> {
    var s := ScanFrom(crc, bytes);
    if strict && s.tailError.Some? then Err(s.tailError.value) else Ok(s)
  }

  method ScanBytes(crc: Crc, bytes: Bytes, strict: bool) returns (r: Outcome<Scan>)
    ensures r == ScanLog(crc, bytes, strict)
  {
    hide NextRecord;
    var rest, records := bytes, [];
    var validBytes: nat := 0;
    while rest != []
      invariant var s := ScanFrom(crc, rest);
        ScanFrom(crc, bytes) == Scan(records + s.records, validBytes + s.validBytes, s.tailError)
      decreases |rest|
    {
      var next := NextRecord(crc, rest);
      if next.Err? {
        if strict {
          return Err(next.error);
        }
        assert records + [] == records;
        return Ok(Scan(records, validBytes, Some(next.error)));
      }
      ghost var tail := ScanFrom(crc, next.value.1);
      assert records + ([next.value.0] + tail.records) == (records + [next.value.0]) + tail.records;
      validBytes := validBytes + |rest| - |next.value.1|;
      records := records + [next.value.0];
      rest := next.value.1;
    }
    assert records + [] == records;
    return Ok(Scan(records, validBytes, None));
  }

  /******* Logs and torn tails *******/

  /** The record fits a frame. */
  predicate Encodable(r: Record) {
    |Encode(r)| < U32
  }

  predicate AllEncodable(rs: seq<Record>) {
    forall i :: 0 <= i < |rs| ==> Encodable(rs[i])
  }

  function FrameOf(crc: Crc, r: Record): (b: Bytes)
    ensures |b| > 0
  {
    Frame(crc, Encode(r))
  }

  function LogBytes(crc: Crc, rs: seq<Record>): Bytes {
    if rs == [] then [] else FrameOf(crc, rs[0]) + LogBytes(crc, rs[1..])
  }

  /** A proper prefix of some frame, possibly empty. */
  ghost predicate Torn(crc: Crc, part: Bytes) {
    part == [] || exists r: Record :: Encodable(r) && part <= FrameOf(crc, r) && part != FrameOf(crc, r)
  }

  lemma FrameScans(crc: Crc, r: Record, rest: Bytes)
    requires Encodable(r)
    ensures NextRecord(crc, FrameOf(crc, r) + rest) == Ok((r, rest))
  {
    hide Encode, Decode, DecodeFrame, Frame;
    PayloadFits(r);
    RecordRoundTrip(r);
    FrameRoundTrip(crc, Encode(r), rest);
  }

  lemma PayloadFits(r: Record)
    requires Encodable(r)
    ensures r.body.Mutation? ==> |r.body.payload| < U64
  {
  }

  lemma TornFails(crc: Crc, part: Bytes)
    requires Torn(crc, part) && part != []
    ensures NextRecord(crc, part) == Err(FormatEof)
  {
    hide Encode, Frame;
    var r: Record :| Encodable(r) && part <= FrameOf(crc, r) && part != FrameOf(crc, r);
    assert part == FrameOf(crc, r)[..|part|];
    assert |part| < |FrameOf(crc, r)|;
    CutFrameFails(crc, Encode(r), |part|);
  }

  /** Scanning whole frames followed by a torn one yields exactly the whole records, and notices the torn tail. */
  lemma {:induction false} ScanLogTorn(crc: Crc, rs: seq<Record>, part: Bytes)
    requires AllEncodable(rs) && Torn(crc, part)
    ensures ScanFrom(crc, LogBytes(crc, rs) + part)
      == Scan(rs, |LogBytes(crc, rs)|, if part == [] then None else Some(FormatEof))
    decreases |rs|
  {
    hide NextRecord, FrameOf, Encodable;
    if rs == [] {
      assert LogBytes(crc, rs) + part == part;
      if part != [] {
        TornFails(crc, part);
      }
    } else {
      var first, tail := FrameOf(crc, rs[0]), LogBytes(crc, rs[1..]);
      assert LogBytes(crc, rs) + part == first + (tail + part);
      FrameScans(crc, rs[0], tail + part);
      ScanLogTorn(crc, rs[1..], part);
      assert [rs[0]] + rs[1..] == rs;
    }
  }

  /** How many whole frames of the log lie within its first `cut` bytes. */
  function WholeFrames(crc: Crc, rs: seq<Record>, cut: nat): (k: nat)
    ensures k <= |rs|
  {
    if rs == [] || cut < |FrameOf(crc, rs[0])| then 0
    else 1 + WholeFrames(crc, rs[1..], cut - |FrameOf(crc, rs[0])|)
  }

  /** Cutting a log at any byte leaves its longest whole-frame prefix and a torn rest. */
  lemma {:induction false} CutLog(crc: Crc, rs: seq<Record>, cut: nat)
    requires AllEncodable(rs) && cut <= |LogBytes(crc, rs)|
    ensures var kept := LogBytes(crc, rs[..WholeFrames(crc, rs, cut)]);
      && kept <= LogBytes(crc, rs)[..cut]
      && Torn(crc, LogBytes(crc, rs)[|kept|..cut])
      && LogBytes(crc, rs)[..cut] == kept + LogBytes(crc, rs)[|kept|..cut]
    ensures var k := WholeFrames(crc, rs, cut); k < |rs| ==> cut < |LogBytes(crc, rs[..k + 1])|
    decreases |rs|
  {
    hide FrameOf, Encodable, Torn;
    var k := WholeFrames(crc, rs, cut);
    var log := LogBytes(crc, rs);
    if rs == [] {
      assert rs[..k] == [];
      TornEmpty(crc);
      assert log[0..cut] == [];
    } else {
      var first, tail := FrameOf(crc, rs[0]), LogBytes(crc, rs[1..]);
      assert log == first + tail;
      if cut < |first| {
        assert rs[..0] == [] && rs[..1] == [rs[0]];
        assert rs[..1][1..] == [];
        assert log[0..cut] == first[..cut];
        TornPrefix(crc, rs[0], cut);
      } else {
        CutLog(crc, rs[1..], cut - |first|);
        assert rs[..k][1..] == rs[1..][..k - 1];
        var kept := LogBytes(crc, rs[1..][..k - 1]);
        assert LogBytes(crc, rs[..k]) == first + kept;
        CutBehind(first, tail, kept, cut);
        if k < |rs| {
          assert rs[..k + 1][1..] == rs[1..][..k];
        }
      }
    }
  }

  lemma CutBehind(first: Bytes, tail: Bytes, kept: Bytes, cut: nat)
    requires |first| <= cut <= |first| + |tail| && kept <= tail[..cut - |first|]
    ensures var log, whole := first + tail, first + kept;
      && log[|whole|..cut] == tail[|kept|..cut - |first|]
      && log[..cut] == whole + log[|whole|..cut]
      && whole <= log[..cut]
  {
  }

  lemma TornEmpty(crc: Crc)
    ensures Torn(crc, [])
  {
  }

  lemma TornPrefix(crc: Crc, r: Record, cut: nat)
    requires Encodable(r) && cut < |FrameOf(crc, r)|
    ensures Torn(crc, FrameOf(crc, r)[..cut])
  {
  }

  lemma {:induction false} TornShrinks(crc: Crc, part: Bytes, cut: nat)
    requires Torn(crc, part) && cut <= |part|
    ensures Torn(crc, part[..cut])
  {
    hide FrameOf, Encodable;
    if part != [] && cut < |part| {
      var r: Record :| Encodable(r) && part <= FrameOf(crc, r) && part != FrameOf(crc, r);
      assert part[..cut] <= FrameOf(crc, r) && |part[..cut]| < |FrameOf(crc, r)|;
    } else {
      assert cut == |part| ==> part[..cut] == part;
    }
  }

  /** The lenient scan of a log cut at any byte: the records of the longest whole-frame prefix, and a truncation
      report exactly when the cut is not on a frame boundary. */
  lemma CutScan(crc: Crc, rs: seq<Record>, cut: nat)
    requires AllEncodable(rs) && cut <= |LogBytes(crc, rs)|
    ensures var k := WholeFrames(crc, rs, cut);
      var s := ScanFrom(crc, LogBytes(crc, rs)[..cut]);
      && s.records == rs[..k] && s.validBytes == |LogBytes(crc, rs[..k])|
      && (s.tailError.Some? <==> cut != |LogBytes(crc, rs[..k])|)
  {
    hide ScanFrom, LogBytes, Torn;
    CutLog(crc, rs, cut);
    var k := WholeFrames(crc, rs, cut);
    ScanLogTorn(crc, rs[..k], LogBytes(crc, rs)[|LogBytes(crc, rs[..k])|..cut]);
  }

  /** Decoding the frame at the front depends on no byte behind it. */
  lemma FrameIgnoresRest(crc: Crc, bytes: Bytes, other: Bytes, used: nat)
    requires DecodeFrame(crc, bytes).Ok? && used == |bytes| - |DecodeFrame(crc, bytes).value.1|
    requires used <= |other| && other[..used] == bytes[..used]
    ensures DecodeFrame(crc, other) == Ok((DecodeFrame(crc, bytes).value.0, other[used..]))
  {
    assert other[0..4] == other[..used][0..4] && bytes[0..4] == bytes[..used][0..4];
    assert other[4..8] == other[..used][4..8] && bytes[4..8] == bytes[..used][4..8];
    assert other[8..used] == other[..used][8..] && bytes[8..used] == bytes[..used][8..];
  }

  lemma RecordIgnoresRest(crc: Crc, bytes: Bytes, other: Bytes, used: nat)
    requires NextRecord(crc, bytes).Ok? && used == |bytes| - |NextRecord(crc, bytes).value.1|
    requires used <= |other| && other[..used] == bytes[..used]
    ensures NextRecord(crc, other) == Ok((NextRecord(crc, bytes).value.0, other[used..]))
  {
    hide Decode, DecodeFrame;
    FrameIgnoresRest(crc, bytes, other, used);
  }

  /** Whatever the bytes of a log are, dropping what the scan rejects leaves a log that scans strictly to the
      same records. */
  lemma {:induction false} TruncationCleans(crc: Crc, bytes: Bytes)
    ensures var s := ScanFrom(crc, bytes);
      ScanFrom(crc, bytes[..s.validBytes]) == Scan(s.records, s.validBytes, None)
    decreases |bytes|
  {
    hide NextRecord;
    var next := NextRecord(crc, bytes);
    if bytes != [] && next.Ok? {
      var after := next.value.1;
      var tail := ScanFrom(crc, after);
      TruncationCleans(crc, after);
      var used := |bytes| - |after|;
      var kept := bytes[..used + tail.validBytes];
      assert kept[..used] == bytes[..used];
      assert kept[used..] == after[..tail.validBytes];
      RecordIgnoresRest(crc, bytes, kept, used);
    }
  }

  function FramesOf(crc: Crc, payloads: seq<Bytes>): Bytes {
    if payloads == [] then [] else Frame(crc, payloads[0]) + FramesOf(crc, payloads[1..])
  }

  lemma NoFrameFits(crc: Crc, bytes: Bytes)
    requires bytes == [] || NextRecord(crc, bytes).Err?
    ensures forall p: Bytes :: |p| < U32 && Decode(p).Ok? ==> !(Frame(crc, p) <= bytes)
  {
    hide Decode, DecodeFrame, Frame;
    forall p: Bytes | |p| < U32 && Decode(p).Ok? && Frame(crc, p) <= bytes
      ensures false
    {
      assert bytes == Frame(crc, p) + bytes[|Frame(crc, p)|..];
      DecodeFrameIff(crc, bytes, p, bytes[|Frame(crc, p)|..]);
    }
  }

  /** The valid prefix of the bytes is these frames, each holding the record found, and no such frame follows it. */
  ghost predicate FramesFound(crc: Crc, bytes: Bytes, s: Scan, payloads: seq<Bytes>) {
    && |payloads| == |s.records| && s.validBytes <= |bytes| && bytes[..s.validBytes] == FramesOf(crc, payloads)
    && (forall i :: 0 <= i < |payloads| ==> |payloads[i]| < U32 && Decode(payloads[i]) == Ok(s.records[i]))
    && forall p: Bytes :: |p| < U32 && Decode(p).Ok? ==> !(Frame(crc, p) <= bytes[s.validBytes..])
  }

  lemma FrameBefore(crc: Crc, payload: Bytes, r: Record, after: Bytes, s: Scan, payloads: seq<Bytes>)
    requires |payload| < U32 && Decode(payload) == Ok(r) && FramesFound(crc, after, s, payloads)
    ensures FramesFound(crc, Frame(crc, payload) + after,
      Scan([r] + s.records, |Frame(crc, payload)| + s.validBytes, s.tailError), [payload] + payloads)
  {
    hide Decode, Frame;
    var first, all := Frame(crc, payload), [payload] + payloads;
    assert all[1..] == payloads;
    assert (first + after)[..|first| + s.validBytes] == first + after[..s.validBytes];
    assert (first + after)[|first| + s.validBytes..] == after[s.validBytes..];
  }

  /** Whatever the bytes of a log are, the prefix a scan accepts is a sequence of frames with the right checksums, each
      holding the record found, and no such frame follows it. */
  lemma {:induction false} ScanIsFrames(crc: Crc, bytes: Bytes) returns (payloads: seq<Bytes>)
    ensures FramesFound(crc, bytes, ScanFrom(crc, bytes), payloads)
    decreases |bytes|
  {
    hide Decode, DecodeFrame, Frame;
    if bytes == [] || NextRecord(crc, bytes).Err? {
      payloads := [];
      assert bytes[0..] == bytes;
      NoFrameFits(crc, bytes);
    } else {
      var (payload, after) := DecodeFrame(crc, bytes).value;
      DecodeFrameIff(crc, bytes, payload, after);
      hide FramesFound;
      var rest := ScanIsFrames(crc, after);
      FrameBefore(crc, payload, Decode(payload).value, after, ScanFrom(crc, after), rest);
      payloads := [payload] + rest;
    }
  }

  /** A record whose payload was damaged into one with another checksum ends the scan: it is not read, nor is anything
      after it. */
  lemma {:induction false} DamageEndsScan(crc: Crc, rs: seq<Record>, r: Record, damaged: Bytes, rest: Bytes)
    requires AllEncodable(rs) && Encodable(r) && |damaged| == |Encode(r)| && crc(damaged) != crc(Encode(r))
    ensures ScanFrom(crc, LogBytes(crc, rs) + (Le(|damaged|, 4) + Le(crc(Encode(r)), 4) + damaged + rest))
      == Scan(rs, |LogBytes(crc, rs)|, Some(FrameCrcMismatch))
    decreases |rs|
  {
    hide Encode, Decode, Frame, DecodeFrame, Le;
    var broken := Le(|damaged|, 4) + Le(crc(Encode(r)), 4) + damaged + rest;
    var log := LogBytes(crc, rs) + broken;
    if rs == [] {
      assert log == broken;
      DamagedFrameRefused(crc, Encode(r), damaged, rest);
    } else {
      var tail := LogBytes(crc, rs[1..]) + broken;
      assert log == FrameOf(crc, rs[0]) + tail;
      FrameScans(crc, rs[0], tail);
      DamageEndsScan(crc, rs[1..], r, damaged, rest);
      assert rs == [rs[0]] + rs[1..];
    }
  }

  /** Appending a frame to a log that scans cleanly appends its record. */
  lemma {:induction false} ScanAppend(crc: Crc, log: Bytes, r: Record)
    requires ScanFrom(crc, log).tailError.None? && Encodable(r)
    ensures var s := ScanFrom(crc, log + FrameOf(crc, r));
      s.tailError.None? && s.records == ScanFrom(crc, log).records + [r]
    decreases |log|
  {
    hide NextRecord, FrameOf, Encodable;
    var frame := FrameOf(crc, r);
    if log == [] {
      assert log + frame == frame && frame + [] == frame;
      FrameScans(crc, r, []);
    } else {
      var after := NextRecord(crc, log).value.1;
      var used := |log| - |after|;
      assert (log + frame)[..used] == log[..used] && (log + frame)[used..] == after + frame;
      RecordIgnoresRest(crc, log, log + frame, used);
      ScanAppend(crc, after, r);
    }
  }

  function NextLsn(rs: seq<Record>): nat {
    if rs == [] then 1 else rs[|rs| - 1].lsn + 1
  }

  /** LSNs count up from 1 without a gap. */
  predicate Contiguous(rs: seq<Record>) {
    forall i :: 0 <= i < |rs| ==> rs[i].lsn == i + 1
  }

  /** A header this log's reader accepts. */
  function CheckHeader(crc: Crc, file: Bytes): Outcome<()> {
    if |file| < F.HEADER_LEN then Err(BadHeader)
    else
      var header :- F.Decode(crc, file[..F.HEADER_LEN]);
      if header.kind != F.WalFile then Err(BadHeader) else Ok(())
  }

  lemma HeaderIff(crc: Crc, file: Bytes)
    ensures CheckHeader(crc, file).Ok? <==> F.Begins(crc, file, F.WalFile)
  {
    hide F.Decode, F.Begins;
    F.BeginsIff(crc, file, F.WalFile);
  }

  class WalWriter {
    const crc: Crc
    var file: Bytes
    var nextLsn: nat
    var truncatedTail: bool
    var discardedTailBytes: nat

    ghost function Log(): Bytes
      reads this
      requires |file| >= F.HEADER_LEN
    {
      file[F.HEADER_LEN..]
    }

    ghost function Records(): seq<Record>
      reads this
      requires |file| >= F.HEADER_LEN
    {
      ScanFrom(crc, Log()).records
    }

    /** The file is a header followed by records a strict scan accepts, and the next LSN follows the last one. */
    ghost predicate Valid()
      reads this
    {
      && |file| >= F.HEADER_LEN
      && ScanFrom(crc, Log()).tailError.None?
      && nextLsn == NextLsn(Records())
    }

    constructor (crc: Crc, file: Bytes, nextLsn: nat, truncatedTail: bool, discarded: nat)
      requires |file| >= F.HEADER_LEN && ScanFrom(crc, file[F.HEADER_LEN..]).tailError.None?
      requires nextLsn == NextLsn(ScanFrom(crc, file[F.HEADER_LEN..]).records)
      ensures Valid() && this.crc == crc && this.file == file
      ensures this.truncatedTail == truncatedTail && this.discardedTailBytes == discarded
    {
      this.crc, this.file, this.nextLsn := crc, file, nextLsn;
      this.truncatedTail, this.discardedTailBytes := truncatedTail, discarded;
    }

    /** Opens a log, cutting off whatever a scan of it rejects. */
    static method Open(crc: Crc, file: Bytes, created: u64) returns (r: Outcome<WalWriter>)
      ensures r.Ok? <==> file == [] || F.Begins(crc, file, F.WalFile)
      ensures r.Ok? ==> var w := r.value;
        && fresh(w) && w.Valid() && w.crc == crc
        && if file == []
           then w.Records() == [] && F.Begins(crc, w.file, F.WalFile)
           else
             && w.file <= file && w.Records() == ScanFrom(crc, file[F.HEADER_LEN..]).records
             && w.Log() == file[F.HEADER_LEN..][..ScanFrom(crc, file[F.HEADER_LEN..]).validBytes]
             && w.discardedTailBytes == |file| - |w.file|
             && w.truncatedTail == ScanFrom(crc, file[F.HEADER_LEN..]).tailError.Some?
    {
      hide ScanFrom, F.Decode, F.Encode;
      HeaderIff(crc, file);
      if file == [] {
        var header := F.Header(F.WalFile, 0, created, seq(32, _ => 0));
        var bytes := F.Encode(crc, header);
        assert bytes[..F.HEADER_LEN] == bytes && bytes[F.HEADER_LEN..] == [];
        EmptyScan(crc);
        var w := new WalWriter(crc, bytes, 1, false, 0);
        return Ok(w);
      }
      var header := CheckHeader(crc, file);
      if header.Err? {
        return Err(header.error);
      }
      var log := file[F.HEADER_LEN..];
      var outcome := ScanBytes(crc, log, false);
      var scan := outcome.value;
      TruncationCleans(crc, log);
      var kept, discarded := file, 0;
      if scan.tailError.Some? {
        kept := file[..F.HEADER_LEN + scan.validBytes];
        discarded := |file| - (F.HEADER_LEN + scan.validBytes);
      }
      assert kept[F.HEADER_LEN..] == log[..scan.validBytes];
      var w := new WalWriter(crc, kept, NextLsn(scan.records), scan.tailError.Some?, discarded);
      return Ok(w);
    }

    /** Appends one record under the next LSN; a record too large for a frame changes nothing. */
    method Append(record: Record) returns (r: Outcome<nat>)
      requires Valid() && nextLsn < U64
      modifies this`file, this`nextLsn
      ensures Valid()
      ensures var stored := record.(lsn := old(nextLsn));
        if Encodable(stored)
        then r == Ok(old(nextLsn)) && Records() == old(Records()) + [stored] && nextLsn == old(nextLsn) + 1
             && file == old(file) + FrameOf(crc, stored)
        else r == Err(FrameTooLarge) && unchanged(this)
    {
      hide ScanFrom, Encode, FrameOf, Frame;
      var stored := record.(lsn := nextLsn);
      var frame := EncodeFrame(crc, Encode(stored));
      if frame.Err? {
        return Err(frame.error);
      }
      FrameOfIs(crc, stored);
      AppendToFile(crc, file, stored);
      file := file + frame.value;
      nextLsn := nextLsn + 1;
      return Ok(nextLsn - 1);
    }
  }

  lemma TailOfFile(file: Bytes, more: Bytes)
    requires |file| >= F.HEADER_LEN
    ensures (file + more)[F.HEADER_LEN..] == file[F.HEADER_LEN..] + more
  {
  }

  lemma AppendToFile(crc: Crc, file: Bytes, r: Record)
    requires |file| >= F.HEADER_LEN && ScanFrom(crc, file[F.HEADER_LEN..]).tailError.None? && Encodable(r)
    ensures var s := ScanFrom(crc, (file + FrameOf(crc, r))[F.HEADER_LEN..]);
      s.tailError.None? && s.records == ScanFrom(crc, file[F.HEADER_LEN..]).records + [r]
  {
    hide ScanFrom, FrameOf;
    var log, frame := file[F.HEADER_LEN..], FrameOf(crc, r);
    TailOfFile(file, frame);
    ScanAppend(crc, log, r);
  }

  lemma EmptyScan(crc: Crc)
    ensures ScanFrom(crc, []) == Scan([], 0, None)
  {
  }

  lemma FrameOfIs(crc: Crc, r: Record)
    ensures FrameOf(crc, r) == Frame(crc, Encode(r))
  {
  }

  /******* Runs with crashes *******/

  /** A step of a log's life. A crash may cut the bytes after the header anywhere and takes the writer with it. */
  datatype Step = Write(record: Record) | Crash(at: nat) | Reopen

  /** The log bytes on disk, and the writer's next LSN while one is open. */
  datatype Disk = Disk(log: Bytes, writer: Option<nat>)

  function Next(crc: Crc, d: Disk, s: Step): Disk {
    match s
    case Write(record) =>
      if d.writer.None? || d.writer.value >= U64 then d
      else
        var stored := record.(lsn := d.writer.value);
        if Encodable(stored) then Disk(d.log + FrameOf(crc, stored), Some(d.writer.value + 1)) else d
    case Crash(at) => Disk(if at < |d.log| then d.log[..at] else d.log, None)
    case Reopen =>
      var scan := ScanFrom(crc, d.log);
      Disk(d.log[..scan.validBytes], Some(NextLsn(scan.records)))
  }

  function Run(crc: Crc, steps: seq<Step>): Disk {
    if steps == [] then Disk([], Some(1)) else Next(crc, Run(crc, steps[..|steps| - 1]), steps[|steps| - 1])
  }

  /** The same run told in records: a crash keeps the longest whole-frame prefix, reopening keeps everything. */
  datatype Story = Story(records: seq<Record>, open: bool)

  function NextStory(crc: Crc, t: Story, s: Step): Story {
    match s
    case Write(record) =>
      if !t.open || |t.records| + 1 >= U64 then t
      else
        var stored := record.(lsn := |t.records| + 1);
        if Encodable(stored) then Story(t.records + [stored], true) else t
    case Crash(at) => Story(t.records[..WholeFrames(crc, t.records, at)], false)
    case Reopen => Story(t.records, true)
  }

  function StoryOf(crc: Crc, steps: seq<Step>): Story {
    if steps == [] then Story([], true) else NextStory(crc, StoryOf(crc, steps[..|steps| - 1]), steps[|steps| - 1])
  }

  ghost predicate Tells(crc: Crc, d: Disk, t: Story) {
    && AllEncodable(t.records) && Contiguous(t.records)
    && LogBytes(crc, t.records) <= d.log
    && Torn(crc, d.log[|LogBytes(crc, t.records)|..])
    && (if t.open then d.log == LogBytes(crc, t.records) && d.writer == Some(|t.records| + 1) else d.writer.None?)
  }

  lemma TellsScan(crc: Crc, d: Disk, t: Story)
    requires Tells(crc, d, t)
    ensures ScanFrom(crc, d.log) == Scan(t.records, |LogBytes(crc, t.records)|,
                                         if d.log == LogBytes(crc, t.records) then None else Some(FormatEof))
  {
    hide ScanFrom, LogBytes, Torn;
    var whole := LogBytes(crc, t.records);
    assert d.log == whole + d.log[|whole|..];
    ScanLogTorn(crc, t.records, d.log[|whole|..]);
  }

  lemma {:induction false} LogAppend(crc: Crc, rs: seq<Record>, r: Record)
    ensures LogBytes(crc, rs + [r]) == LogBytes(crc, rs) + FrameOf(crc, r)
    decreases |rs|
  {
    hide FrameOf;
    if rs == [] {
      assert (rs + [r])[1..] == [];
    } else {
      LogAppend(crc, rs[1..], r);
      assert (rs + [r])[1..] == rs[1..] + [r];
    }
  }

  lemma CrashTells(crc: Crc, d: Disk, t: Story, at: nat)
    requires Tells(crc, d, t)
    ensures Tells(crc, Next(crc, d, Crash(at)), NextStory(crc, t, Crash(at)))
  {
    hide ScanFrom, LogBytes, Torn, FrameOf, Encodable;
    var whole := LogBytes(crc, t.records);
    if at <= |whole| {
      CutLog(crc, t.records, at);
      var log := Next(crc, d, Crash(at)).log;
      assert log == whole[..at];
      var kept := LogBytes(crc, t.records[..WholeFrames(crc, t.records, at)]);
      assert log[|kept|..] == whole[|kept|..at];
    } else {
      AllWhole(crc, t.records, at);
      assert t.records[..|t.records|] == t.records;
      if at < |d.log| {
        assert d.log[..at][|whole|..] == d.log[|whole|..][..at - |whole|];
        TornShrinks(crc, d.log[|whole|..], at - |whole|);
      }
    }
  }

  lemma {:induction false} AllWhole(crc: Crc, rs: seq<Record>, cut: nat)
    requires cut >= |LogBytes(crc, rs)|
    ensures WholeFrames(crc, rs, cut) == |rs|
    decreases |rs|
  {
    hide FrameOf;
    if rs != [] {
      AllWhole(crc, rs[1..], cut - |FrameOf(crc, rs[0])|);
    }
  }

  lemma StepTells(crc: Crc, d: Disk, t: Story, s: Step)
    requires Tells(crc, d, t)
    ensures Tells(crc, Next(crc, d, s), NextStory(crc, t, s))
  {
    hide ScanFrom, LogBytes, Torn, FrameOf, Encodable;
    match s
    case Write(record) =>
      if t.open && |t.records| + 1 < U64 {
        LogAppend(crc, t.records, record.(lsn := |t.records| + 1));
        TornEmpty(crc);
        var d' := Next(crc, d, s);
        assert d'.log[|d'.log|..] == [];
      }
    case Crash(at) =>
      CrashTells(crc, d, t, at);
    case Reopen =>
      TellsScan(crc, d, t);
      TornEmpty(crc);
      var whole := LogBytes(crc, t.records);
      assert d.log[..|whole|] == whole && whole[|whole|..] == [];
  }

  /** Over every interleaving of appends, crashes at any byte and reopens: the lenient scan finds exactly the surviving
      records, reports a truncated tail exactly when a partial frame is left, LSNs run from 1 without a gap, and
      while a writer is open a strict scan accepts the log and the next LSN is the next number. */
  lemma {:induction false} RunSafety(crc: Crc, steps: seq<Step>)
    ensures var d, t := Run(crc, steps), StoryOf(crc, steps);
      && Tells(crc, d, t)
      && ScanFrom(crc, d.log).records == t.records && Contiguous(t.records)
      && (ScanFrom(crc, d.log).tailError.Some? <==> d.log != LogBytes(crc, t.records))
      && (d.writer.Some? ==> ScanLog(crc, d.log, true).Ok? && d.writer.value == |t.records| + 1)
    decreases |steps|
  {
    hide ScanFrom, LogBytes, Torn, FrameOf, Next, NextStory;
    if steps == [] {
      EmptyTells(crc);
    } else {
      RunSafety(crc, steps[..|steps| - 1]);
      StepTells(crc, Run(crc, steps[..|steps| - 1]), StoryOf(crc, steps[..|steps| - 1]), steps[|steps| - 1]);
    }
    TellsScan(crc, Run(crc, steps), StoryOf(crc, steps));
  }

  lemma EmptyTells(crc: Crc)
    ensures Tells(crc, Disk([], Some(1)), Story([], true))
  {
  }

  /** The file and the writer, if one is open, are those of the disk `d`. */
  ghost predicate Mirrors(crc: Crc, file: Bytes, w: WalWriter?, d: Disk)
    reads w
  {
    && |file| >= F.HEADER_LEN && F.Begins(crc, file, F.WalFile) && file[F.HEADER_LEN..] == d.log
    && (if w == null then d.writer == None
        else w.Valid() && w.crc == crc && w.file == file && d.writer == Some(w.nextLsn))
  }

  method ExecuteStep(crc: Crc, file: Bytes, w: WalWriter?, step: Step, created: u64, ghost d: Disk)
    returns (file': Bytes, w': WalWriter?)
    requires Mirrors(crc, file, w, d)
    modifies w
    ensures Mirrors(crc, file', w', Next(crc, d, step))
    ensures w' == null || w' == w || fresh(w')
  {
    hide ScanFrom, FrameOf, Encodable, F.Begins;
    file', w' := file, w;
    HeaderFits(crc, file);
    if step.Write? {
      if w != null && w.nextLsn < U64 {
        var r := w.Append(step.record);
        KeepsHeader(crc, file, w.file);
        file' := w.file;
      }
    } else if step.Crash? {
      var cut := if step.at < |file| - F.HEADER_LEN then F.HEADER_LEN + step.at else |file|;
      KeepsHeader(crc, file, file[..cut]);
      file', w' := file[..cut], null;
      assert file'[F.HEADER_LEN..] == Next(crc, d, step).log;
    } else {
      var outcome := WalWriter.Open(crc, file, created);
      w' := outcome.value;
      KeepsHeader(crc, file, w'.file);
      file' := w'.file;
    }
  }

  /** The writer class carries out such runs: starting from no file, its log bytes are those of the run. */
  method Execute(crc: Crc, steps: seq<Step>, created: u64) returns (log: Bytes)
    ensures log == Run(crc, steps).log
  {
    hide ScanFrom, Next, F.Begins;
    var outcome := WalWriter.Open(crc, [], created);
    var w: WalWriter? := outcome.value;
    var file := w.file;
    EmptyRun(crc, w);
    for i := 0 to |steps|
      invariant w == null || fresh(w)
      invariant Mirrors(crc, file, w, Run(crc, steps[..i]))
    {
      assert steps[..i + 1][..i] == steps[..i] && steps[..i + 1][i] == steps[i];
      file, w := ExecuteStep(crc, file, w, steps[i], created, Run(crc, steps[..i]));
    }
    assert steps[..|steps|] == steps;
    HeaderFits(crc, file);
    log := file[F.HEADER_LEN..];
  }

  lemma HeaderFits(crc: Crc, file: Bytes)
    requires F.Begins(crc, file, F.WalFile)
    ensures |file| >= F.HEADER_LEN
  {
  }

  lemma EmptyRun(crc: Crc, w: WalWriter)
    requires w.Valid() && w.crc == crc && w.Records() == []
    ensures w.Log() == [] && w.nextLsn == 1
  {
  }

  lemma KeepsHeader(crc: Crc, a: Bytes, b: Bytes)
    requires F.Begins(crc, a, F.WalFile) && |b| >= F.HEADER_LEN && b[..F.HEADER_LEN] == a[..F.HEADER_LEN]
    ensures F.Begins(crc, b, F.WalFile)
  {
  }
}

/** Value segment files: VE1 entries, compressed or raw, with DELTA1 bodies for deltas, one per record frame. */
module ValueSegment {
  import opened Wrappers
  import opened Codec
  import opened ValueGraph
  import opened Import
  import F = FileHeader

  /** The compressor is foreign code. */
  datatype Zstd = Zstd(compress: Bytes -> Bytes, decompress: Bytes -> Outcome<Bytes>)

  /** What is taken from the compressor: it is lossless, and what it expands fits in memory. */
  ghost predicate Lossless(z: Zstd) {
    && (forall b :: z.decompress(z.compress(b)) == Ok(b))
    && (forall b :: |b| < U64 && z.decompress(b).Ok? ==> |z.decompress(b).value| < U64)
  }

  const RECORD_TYPE: byte := 0x20
  const RECORD_VERSION: byte := 1
  const DELTA_COPY_ADD: byte := 0

  function KindCode(k: ValueKind): byte {
    match k
    case Cell => 1
    case Group => 2
    case BlobChunk => 3
    case BlobManifest => 4
    case Delta => 5
    case Embedding => 6
  }

  function KindFrom(b: byte): Outcome<ValueKind> {
    if b == 1 then Ok(Cell)
    else if b == 2 then Ok(Group)
    else if b == 3 then Ok(BlobChunk)
    else if b == 4 then Ok(BlobManifest)
    else if b == 5 then Ok(Delta)
    else if b == 6 then Ok(Embedding)
    else Err(InvalidValueKind)
  }

  /******* DELTA1 bodies *******/

  function EncodeDelta(d: DeltaEntry, patch: Bytes): Bytes {
    d.base + [DELTA_COPY_ADD] + Varu(d.fullLen) + Varu(|patch|) + patch
  }

  /** Depth and skip patches are not stored. */
  function DecodeDelta(rawLen: nat, stored: Bytes): Outcome<(DeltaEntry, Bytes)> {
    if |stored| < 17 then Err(FormatEof)
    else if stored[16] != DELTA_COPY_ADD then Err(UnsupportedDeltaCodec)
    else
      var (fullLen, rest) :- DecodeVaru(stored[17..]);
      if fullLen != rawLen then Err(InvalidSegmentEntry)
      else
        var (len, patch) :- DecodeVaru(rest);
        if |patch| < len then Err(FormatEof)
        else if |patch| > len then Err(InvalidSegmentEntry)
        else Ok((DeltaEntry(stored[..16], fullLen, 0, []), patch))
  }

  lemma DeltaRoundTrip(d: DeltaEntry, patch: Bytes)
    requires d.fullLen < U64 && |patch| < U64
    ensures DecodeDelta(d.fullLen, EncodeDelta(d, patch)) == Ok((DeltaEntry(d.base, d.fullLen, 0, []), patch))
  {
    hide Varu, DecodeVaru;
    var stored := EncodeDelta(d, patch);
    assert stored[17..] == Varu(d.fullLen) + (Varu(|patch|) + patch);
    VaruRoundTrip(d.fullLen, Varu(|patch|) + patch);
    VaruRoundTrip(|patch|, patch);
    assert stored[..16] == d.base;
  }

  /** A DELTA1 body on disk. */
  lemma DeltaOnDisk(base: ValueId, depth: nat, skip: seq<SkipPatch>)
    ensures EncodeDelta(DeltaEntry(base, 5, depth, skip), [7]) == base + [0] + [5] + [1] + [7]
    ensures KindCode(Delta) == 5 && KindCode(Cell) == 1 && KindCode(Group) == 2
  {
  }

  /******* VE1 entries *******/

  /** The declared length and the bytes to store; a delta without its record cannot be encoded. */
  function RawOf(e: ValueEntry): Outcome<(nat, Bytes)> {
    if e.kind != Delta then Ok((|e.bytes|, e.bytes))
    else if e.delta.None? then Err(InvalidDelta)
    else Ok((e.delta.value.fullLen, EncodeDelta(e.delta.value, e.bytes)))
  }

  /** Compresses only when that is shorter. */
  function Pack(z: Zstd, raw: Bytes): (byte, Bytes) {
    var packed := z.compress(raw);
    if |packed| < |raw| then (1, packed) else (0, raw)
  }

  /** What is stored is the shorter of the raw and the compressed bytes, and the codec says which. */
  lemma PacksShortest(z: Zstd, raw: Bytes)
    ensures var (codec, stored) := Pack(z, raw);
      && |stored| <= |raw| && |stored| <= |z.compress(raw)|
      && (codec == 0 ==> stored == raw) && (codec != 0 ==> codec == 1 && stored == z.compress(raw))
      && (|z.compress(raw)| == |raw| ==> codec == 0)
  {
  }

  function Unpack(z: Zstd, codec: byte, stored: Bytes): Outcome<Bytes> {
    if codec == 0 then Ok(stored) else z.decompress(stored)
  }

  function EncodeEntry(z: Zstd, id: ValueId, e: ValueEntry): Outcome<Bytes> {
    var (rawLen, raw) :- RawOf(e);
    var (codec, stored) := Pack(z, raw);
    Ok([RECORD_TYPE, RECORD_VERSION, KindCode(e.kind), codec] + id + Varu(rawLen) + Varu(|stored|) + stored)
  }

  function EntryFrom(kind: ValueKind, rawLen: nat, raw: Bytes): Outcome<ValueEntry> {
    if kind == Delta then
      var (delta, patch) :- DecodeDelta(rawLen, raw);
      Ok(ValueEntry(Delta, patch, Some(delta)))
    else if rawLen != |raw| then Err(InvalidSegmentEntry)
    else Ok(ValueEntry(kind, raw, None))
  }

  function DecodeBody(z: Zstd, kind: ValueKind, codec: byte, body: Bytes): Outcome<ValueEntry> {
    var (rawLen, rest) :- DecodeVaru(body);
    var (storedLen, stored) :- DecodeVaru(rest);
    if |stored| < storedLen then Err(FormatEof)
    else
      var raw :- Unpack(z, codec, stored[..storedLen]);
      if |stored| > storedLen then Err(InvalidSegmentEntry) else EntryFrom(kind, rawLen, raw)
  }

  function DecodeEntry(z: Zstd, p: Bytes): Outcome<(ValueId, ValueEntry)> {
    if |p| < 20 then Err(FormatEof)
    else if p[0] != RECORD_TYPE then Err(InvalidRecordType)
    else if p[1] != RECORD_VERSION then Err(UnsupportedRecordVersion)
    else
      var kind :- KindFrom(p[2]);
      if p[3] > 1 then Err(UnsupportedCodec)
      else
        var e :- DecodeBody(z, kind, p[3], p[20..]);
        Ok((p[4..20], e))
  }

  /** An entry as a segment keeps it: recorded depth and skip patches are gone, to be worked out again on loading. */
  function Kept(e: ValueEntry): ValueEntry {
    if e.kind != Delta then e.(delta := None)
    else if e.delta.None? then e
    else e.(delta := Some(e.delta.value.(depth := 0, skip := [])))
  }

  predicate Fits(e: ValueEntry) {
    |e.bytes| < U64 && (Chained(e) ==> e.delta.value.fullLen < U64)
  }

  lemma EntryFromRaw(e: ValueEntry)
    requires Fits(e) && RawOf(e).Ok?
    ensures EntryFrom(e.kind, RawOf(e).value.0, RawOf(e).value.1) == Ok(Kept(e))
  {
    hide EncodeDelta, DecodeDelta;
    if e.kind == Delta {
      DeltaRoundTrip(e.delta.value, e.bytes);
    }
  }

  lemma BodyRoundTrip(z: Zstd, kind: ValueKind, rawLen: nat, raw: Bytes)
    requires Lossless(z) && rawLen < U64 && |Pack(z, raw).1| < U64
    ensures var (codec, stored) := Pack(z, raw);
      DecodeBody(z, kind, codec, Varu(rawLen) + Varu(|stored|) + stored) == EntryFrom(kind, rawLen, raw)
  {
    hide Varu, DecodeVaru, EntryFrom;
    var (codec, stored) := Pack(z, raw);
    assert Varu(rawLen) + Varu(|stored|) + stored == Varu(rawLen) + (Varu(|stored|) + stored);
    VaruRoundTrip(rawLen, Varu(|stored|) + stored);
    VaruRoundTrip(|stored|, stored);
    assert stored[..|stored|] == stored;
  }

  /** Decoding an encoded entry gives its id and all of it that a segment keeps. */
  lemma EntryRoundTrip(z: Zstd, id: ValueId, e: ValueEntry)
    requires Lossless(z) && Fits(e) && EncodeEntry(z, id, e).Ok? && |EncodeEntry(z, id, e).value| < U64
    ensures DecodeEntry(z, EncodeEntry(z, id, e).value) == Ok((id, Kept(e)))
  {
    hide Varu, DecodeBody, Pack, EncodeDelta;
    var p := EncodeEntry(z, id, e).value;
    var (rawLen, raw) := RawOf(e).value;
    var (codec, stored) := Pack(z, raw);
    assert codec <= 1 by { CodecKnown(z, raw); }
    var body := Varu(rawLen) + Varu(|stored|) + stored;
    assert p == ([RECORD_TYPE, RECORD_VERSION, KindCode(e.kind), codec] + id) + body;
    assert p[4..20] == id && p[20..] == body;
    BodyRoundTrip(z, e.kind, rawLen, raw);
    EntryFromRaw(e);
  }

  /** An entry that is accepted has this record type and version, its kind's code, a known codec, and its id in place. */
  lemma DecodedFields(z: Zstd, p: Bytes)
    requires DecodeEntry(z, p).Ok?
    ensures var (id, e) := DecodeEntry(z, p).value;
      && |p| >= 20 && p[0] == 0x20 && p[1] == 1 && p[2] == KindCode(e.kind) && p[3] <= 1 && p[4..20] == id
      && (e.kind != Delta ==> e.delta.None?)
      && (e.kind == Delta ==> e.delta.Some? && e.delta.value.depth == 0 && e.delta.value.skip == [])
  {
    hide DecodeVaru, Unpack;
  }

  /** A whole value on disk, stored raw, and what it takes to be refused: more bytes, a body cut short, or another length
      than the one declared. */
  lemma EntryOnDisk(z: Zstd, id: ValueId, a: byte, b: byte, more: Bytes)
    requires Lossless(z) && |z.compress([a, b])| >= 2
    ensures EncodeEntry(z, id, ValueEntry(Cell, [a, b], None)) == Ok([0x20, 1, 1, 0] + id + [2] + [2] + [a, b])
    ensures more != [] ==> DecodeEntry(z, [0x20, 1, 1, 0] + id + ([2] + ([2] + ([a, b] + more)))) == Err(InvalidSegmentEntry)
    ensures DecodeEntry(z, [0x20, 1, 1, 0] + id + ([2] + ([2] + [a]))) == Err(FormatEof)
    ensures DecodeEntry(z, [0x20, 1, 1, 0] + id + ([3] + ([2] + [a, b]))) == Err(InvalidSegmentEntry)
  {
    hide DecodeVaru, Varu;
    SmallVaru(2);
    SmallVaru(3);
    ShortVaru(2, [2] + ([a, b] + more));
    ShortVaru(2, [a, b] + more);
    ShortVaru(2, [2] + [a]);
    ShortVaru(2, [a]);
    ShortVaru(3, [2] + [a, b]);
    ShortVaru(2, [a, b]);
    var long, cut, other := [2] + ([2] + ([a, b] + more)), [2] + ([2] + [a]), [3] + ([2] + [a, b]);
    BodyAt(id, long);
    BodyAt(id, cut);
    BodyAt(id, other);
    assert ([a, b] + more)[..2] == [a, b] && [a, b][..2] == [a, b];
  }

  lemma BodyAt(id: ValueId, body: Bytes)
    ensures var p := [0x20, 1, 1, 0] + id + body;
      |p| >= 20 && p[0] == 0x20 && p[1] == 1 && p[2] == 1 && p[3] == 0 && p[20..] == body
  {
  }

  lemma SmallVaru(n: byte)
    requires n < 128
    ensures Varu(n) == [n]
  {
  }

  lemma ShortVaru(n: byte, rest: Bytes)
    requires n < 128
    ensures DecodeVaru([n] + rest) == Ok((n, rest))
  {
    SmallVaru(n);
    VaruRoundTrip(n, rest);
  }

  lemma CodecKnown(z: Zstd, raw: Bytes)
    ensures Pack(z, raw).0 <= 1
  {
  }

  /** Whatever is decoded fits in memory. */
  lemma DecodedFits(z: Zstd, p: Bytes)
    requires Lossless(z) && |p| < U64 && DecodeEntry(z, p).Ok?
    ensures |DecodeEntry(z, p).value.1.bytes| < U64
  {
    hide Varu;
    var body := p[20..];
    var (rawLen, rest) := DecodeVaru(body).value;
    var (storedLen, stored) := DecodeVaru(rest).value;
    assert stored[..storedLen] == stored;
    var raw := Unpack(z, p[3], stored).value;
    assert |raw| < U64;
    if DecodeEntry(z, p).value.1.kind == Delta {
      hide DecodeEntry;
      var tail := DecodeVaru(raw[17..]).value.1;
      assert |DecodeVaru(tail).value.1| < |tail| < |raw|;
    }
  }

  /******* Segment files *******/

  function EntryFrame(crc: Crc, z: Zstd, id: ValueId, e: ValueEntry): Outcome<Bytes> {
    var payload :- EncodeEntry(z, id, e);
    EncodeFrame(crc, payload)
  }

  function Frames(crc: Crc, z: Zstd, es: Incoming): Outcome<Bytes>
    decreases |es|
  {
    if es == [] then Ok([])
    else
      var frame :- EntryFrame(crc, z, es[0].0, es[0].1);
      var rest :- Frames(crc, z, es[1..]);
      Ok(frame + rest)
  }

  function HeaderFor(crc: Crc, created: u64): (b: Bytes)
    ensures |b| == F.HEADER_LEN
  {
    F.Encode(crc, F.Header(F.ValSegFile, 0, created, seq(32, _ => 0)))
  }

  /** The entries of the frames in `rest`, after those already found. */
  function ReadFrames(crc: Crc, z: Zstd, rest: Bytes, found: Incoming): Outcome<Incoming>
    decreases |rest|
  {
    if rest == [] then Ok(found)
    else
      var (payload, rest') :- DecodeFrame(crc, rest);
      var entry :- DecodeEntry(z, payload);
      ReadFrames(crc, z, rest', found + [entry])
  }

  function ReadSegment(crc: Crc, z: Zstd, file: Bytes): Outcome<Incoming> {
    if |file| < F.HEADER_LEN then Err(BadHeader)
    else
      var header :- F.Decode(crc, file[..F.HEADER_LEN]);
      if header.kind != F.ValSegFile then Err(BadHeader) else ReadFrames(crc, z, file[F.HEADER_LEN..], [])
  }

  /** Bytes that are frames, one after the other, of payloads that decode to these entries. */
  ghost predicate FramesOf(crc: Crc, z: Zstd, bytes: Bytes, es: Incoming)
    decreases |es|
  {
    if es == [] then bytes == []
    else exists payload, rest :: (
           && |payload| < U32 && bytes == Frame(crc, payload) + rest && DecodeEntry(z, payload) == Ok(es[0])
           && FramesOf(crc, z, rest, es[1..]))
  }

  lemma {:induction false} ReadFramesGrow(crc: Crc, z: Zstd, bytes: Bytes, found: Incoming)
    ensures var r := ReadFrames(crc, z, bytes, found); r.Ok? ==> found <= r.value && (bytes != [] ==> found != r.value)
    decreases |bytes|
  {
    hide DecodeFrame, DecodeEntry;
    if bytes != [] && DecodeFrame(crc, bytes).Ok? && DecodeEntry(z, DecodeFrame(crc, bytes).value.0).Ok? {
      var (payload, rest) := DecodeFrame(crc, bytes).value;
      ReadFramesGrow(crc, z, rest, found + [DecodeEntry(z, payload).value]);
    }
  }

  lemma FirstFrame(crc: Crc, z: Zstd, bytes: Bytes, found: Incoming, es: Incoming) returns (payload: Bytes, rest: Bytes)
    requires es != [] && ReadFrames(crc, z, bytes, found) == Ok(found + es)
    ensures |payload| < U32 && bytes == Frame(crc, payload) + rest && DecodeEntry(z, payload) == Ok(es[0])
    ensures ReadFrames(crc, z, rest, found + [es[0]]) == Ok(found + es)
  {
    hide DecodeFrame, DecodeEntry, Frame;
    payload, rest := DecodeFrame(crc, bytes).value.0, DecodeFrame(crc, bytes).value.1;
    DecodeFrameIff(crc, bytes, payload, rest);
    ReadFramesGrow(crc, z, rest, found + [DecodeEntry(z, payload).value]);
    assert (found + es)[|found|] == DecodeEntry(z, payload).value;
  }

  lemma AfterFirstFrame(crc: Crc, z: Zstd, payload: Bytes, rest: Bytes, found: Incoming, e: (ValueId, ValueEntry))
    requires |payload| < U32 && DecodeEntry(z, payload) == Ok(e)
    ensures ReadFrames(crc, z, Frame(crc, payload) + rest, found) == ReadFrames(crc, z, rest, found + [e])
  {
    hide DecodeFrame, DecodeEntry, Frame;
    DecodeFrameIff(crc, Frame(crc, payload) + rest, payload, rest);
  }

  lemma OneMoreFrame(crc: Crc, z: Zstd, payload: Bytes, rest: Bytes, es: Incoming)
    requires es != [] && |payload| < U32 && DecodeEntry(z, payload) == Ok(es[0]) && FramesOf(crc, z, rest, es[1..])
    ensures FramesOf(crc, z, Frame(crc, payload) + rest, es)
  {
    hide Frame, DecodeEntry;
  }

  lemma SplitFrame(crc: Crc, z: Zstd, bytes: Bytes, es: Incoming) returns (payload: Bytes, rest: Bytes)
    requires es != [] && FramesOf(crc, z, bytes, es)
    ensures |payload| < U32 && bytes == Frame(crc, payload) + rest && DecodeEntry(z, payload) == Ok(es[0])
    ensures FramesOf(crc, z, rest, es[1..])
  {
    hide Frame, DecodeEntry;
    payload, rest :| (
      && |payload| < U32 && bytes == Frame(crc, payload) + rest && DecodeEntry(z, payload) == Ok(es[0])
      && FramesOf(crc, z, rest, es[1..]));
  }

  lemma NoFramesIff(crc: Crc, z: Zstd, bytes: Bytes, found: Incoming)
    ensures ReadFrames(crc, z, bytes, found) == Ok(found) <==> FramesOf(crc, z, bytes, [])
  {
    hide DecodeFrame, DecodeEntry;
    ReadFramesGrow(crc, z, bytes, found);
  }

  lemma {:induction false} ReadFramesIff(crc: Crc, z: Zstd, bytes: Bytes, found: Incoming, es: Incoming)
    ensures ReadFrames(crc, z, bytes, found) == Ok(found + es) <==> FramesOf(crc, z, bytes, es)
    decreases |es|
  {
    hide *;
    if es == [] {
      assert found + es == found;
      NoFramesIff(crc, z, bytes, found);
    } else {
      assert found + es == (found + [es[0]]) + es[1..];
      if ReadFrames(crc, z, bytes, found) == Ok(found + es) {
        var payload, rest := FirstFrame(crc, z, bytes, found, es);
        ReadFramesIff(crc, z, rest, found + [es[0]], es[1..]);
        OneMoreFrame(crc, z, payload, rest, es);
      }
      if FramesOf(crc, z, bytes, es) {
        var payload, rest := SplitFrame(crc, z, bytes, es);
        AfterFirstFrame(crc, z, payload, rest, found, es[0]);
        ReadFramesIff(crc, z, rest, found + [es[0]], es[1..]);
      }
    }
  }

  /** A segment is read as these entries exactly when it is a header of its kind and their frames, up to its last byte. */
  lemma ReadSegmentIff(crc: Crc, z: Zstd, file: Bytes, es: Incoming)
    ensures ReadSegment(crc, z, file) == Ok(es) <==>
      F.Begins(crc, file, F.ValSegFile) && FramesOf(crc, z, file[F.HEADER_LEN..], es)
  {
    hide F.Decode, F.Begins, FramesOf, ReadFrames;
    F.BeginsIff(crc, file, F.ValSegFile);
    if |file| >= F.HEADER_LEN {
      ReadFramesIff(crc, z, file[F.HEADER_LEN..], [], es);
      assert [] + es == es;
    }
  }

  method ReadSegmentFile(crc: Crc, z: Zstd, file: Bytes) returns (r: Outcome<Incoming>)
    ensures r == ReadSegment(crc, z, file)
  {
    hide F.Decode, DecodeFrame, DecodeEntry;
    if |file| < F.HEADER_LEN {
      return Err(BadHeader);
    }
    var header :- F.Decode(crc, file[..F.HEADER_LEN]);
    if header.kind != F.ValSegFile {
      return Err(BadHeader);
    }
    var rest, found := file[F.HEADER_LEN..], [];
    while rest != []
      invariant ReadSegment(crc, z, file) == ReadFrames(crc, z, rest, found)
      decreases |rest|
    {
      var frame :- DecodeFrame(crc, rest);
      var entry :- DecodeEntry(z, frame.0);
      rest, found := frame.1, found + [entry];
    }
    return Ok(found);
  }

  function KeptAll(es: Incoming): (ks: Incoming)
    ensures |ks| == |es|
  {
    seq(|es|, i requires 0 <= i < |es| => (es[i].0, Kept(es[i].1)))
  }

  predicate EntriesFit(es: Incoming) {
    forall i :: 0 <= i < |es| ==> Fits(es[i].1)
  }

  lemma {:induction false} FramesReadBack(crc: Crc, z: Zstd, es: Incoming, found: Incoming)
    requires Lossless(z) && EntriesFit(es) && Frames(crc, z, es).Ok?
    ensures ReadFrames(crc, z, Frames(crc, z, es).value, found) == Ok(found + KeptAll(es))
    decreases |es|
  {
    hide EncodeEntry, DecodeEntry, Frame, DecodeFrame, Kept;
    if es == [] {
      assert found + KeptAll(es) == found;
    } else {
      var (id, e) := es[0];
      var payload := EncodeEntry(z, id, e).value;
      var rest := Frames(crc, z, es[1..]).value;
      EntryRoundTrip(z, id, e);
      FrameRoundTrip(crc, payload, rest);
      FramesReadBack(crc, z, es[1..], found + [(id, Kept(e))]);
      assert (found + [(id, Kept(e))]) + KeptAll(es[1..]) == found + KeptAll(es);
    }
  }

  /** Every entry written to a segment is read back, in order. */
  lemma SegmentReadsBack(crc: Crc, z: Zstd, created: u64, es: Incoming)
    requires Lossless(z) && EntriesFit(es) && Frames(crc, z, es).Ok?
    ensures ReadSegment(crc, z, HeaderFor(crc, created) + Frames(crc, z, es).value) == Ok(KeptAll(es))
  {
    hide F.Encode, F.Decode, Frames, ReadFrames;
    var header := HeaderFor(crc, created);
    var file := header + Frames(crc, z, es).value;
    F.HeaderRoundTrip(crc, F.Header(F.ValSegFile, 0, created, seq(32, _ => 0)), []);
    assert header + [] == header && file[..F.HEADER_LEN] == header;
    assert file[F.HEADER_LEN..] == Frames(crc, z, es).value;
    FramesReadBack(crc, z, es, []);
    assert [] + KeptAll(es) == KeptAll(es);
  }

  lemma {:induction false} ReadFramesFit(crc: Crc, z: Zstd, rest: Bytes, found: Incoming)
    requires Lossless(z) && |rest| < U64 && BoundedEntries(found) && ReadFrames(crc, z, rest, found).Ok?
    ensures BoundedEntries(ReadFrames(crc, z, rest, found).value)
    decreases |rest|
  {
    hide DecodeEntry;
    if rest != [] {
      var (payload, rest') := DecodeFrame(crc, rest).value;
      DecodedFits(z, payload);
      ReadFramesFit(crc, z, rest', found + [DecodeEntry(z, payload).value]);
    }
  }

  lemma ReadSegmentFits(crc: Crc, z: Zstd, file: Bytes)
    requires Lossless(z) && |file| < U64 && ReadSegment(crc, z, file).Ok?
    ensures BoundedEntries(ReadSegment(crc, z, file).value)
  {
    hide ReadFrames, F.Decode;
    ReadFramesFit(crc, z, file[F.HEADER_LEN..], []);
  }

  class ValueSegmentWriter {
    const crc: Crc
    const z: Zstd
    var file: Bytes

    constructor Create(crc: Crc, z: Zstd, created: u64)
      ensures this.crc == crc && this.z == z && file == HeaderFor(crc, created)
    {
      this.crc, this.z := crc, z;
      file := HeaderFor(crc, created);
    }

    method Append(id: ValueId, e: ValueEntry) returns (r: Outcome<()>)
      modifies this`file
      ensures var frame := EntryFrame(crc, z, id, e);
        if frame.Ok? then r == Ok(()) && file == old(file) + frame.value else r == Err(frame.error) && file == old(file)
    {
      hide EncodeEntry, Frame;
      var payload :- EncodeEntry(z, id, e);
      var frame :- EncodeFrame(crc, payload);
      file := file + frame;
      return Ok(());
    }
  }
}

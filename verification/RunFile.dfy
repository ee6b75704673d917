/** Immutable sorted runs: block-split files with an index of first keys and a checksummed footer. */
module RunFile {
  import opened Wrappers
  import opened Codec
  import F = FileHeader

  /******* Key order *******/

  /** Lexicographic order on byte strings. */
  predicate Less(a: Bytes, b: Bytes) {
    if b == [] then false
    else if a == [] then true
    else a[0] < b[0] || (a[0] == b[0] && Less(a[1..], b[1..]))
  }

  lemma {:induction false} LessTransitive(a: Bytes, b: Bytes, c: Bytes)
    requires Less(a, b) && Less(b, c)
    ensures Less(a, c)
  {
    if a != [] && a[0] == b[0] && b[0] == c[0] {
      LessTransitive(a[1..], b[1..], c[1..]);
    }
  }

  lemma {:induction false} LessIrreflexive(a: Bytes)
    ensures !Less(a, a)
  {
    if a != [] {
      LessIrreflexive(a[1..]);
    }
  }

  lemma {:induction false} LessTotal(a: Bytes, b: Bytes)
    ensures a == b || Less(a, b) || Less(b, a)
  {
    if a != [] && b != [] && a[0] == b[0] {
      LessTotal(a[1..], b[1..]);
      if a[1..] == b[1..] {
        assert a == [a[0]] + a[1..] && b == [b[0]] + b[1..];
      }
    } else if a == [] && b == [] {
      assert a == b;
    }
  }

  predicate SameUpTo(a: Bytes, b: Bytes, k: nat) {
    k <= |a| && k <= |b| && forall j :: 0 <= j < k ==> a[j] == b[j]
  }

  /** One string is below another exactly when it is a proper prefix of it or has the smaller byte where they first
      differ. */
  lemma {:induction false} LessIff(a: Bytes, b: Bytes)
    ensures Less(a, b) <==> exists k: nat :: SameUpTo(a, b, k) && k < |b| && (k == |a| || a[k] < b[k])
  {
    if a == [] && b != [] {
      assert SameUpTo(a, b, 0);
    }
    if a != [] && b != [] {
      LessIff(a[1..], b[1..]);
      if a[0] < b[0] {
        assert SameUpTo(a, b, 0);
      }
      if a[0] == b[0] && Less(a[1..], b[1..]) {
        var k: nat :| SameUpTo(a[1..], b[1..], k) && k < |b[1..]| && (k == |a[1..]| || a[1..][k] < b[1..][k]);
        assert SameUpTo(a, b, k + 1) by {
          forall j | 0 <= j < k + 1
            ensures a[j] == b[j]
          {
            assert j > 0 ==> a[j] == a[1..][j - 1] && b[j] == b[1..][j - 1];
          }
        }
      }
      if k: nat :| SameUpTo(a, b, k) && k < |b| && (k == |a| || a[k] < b[k]) {
        if k > 0 {
          assert SameUpTo(a[1..], b[1..], k - 1);
        }
      }
    }
  }

  datatype RunEntry = RunEntry(key: Bytes, value: Bytes)

  datatype IndexEntry = IndexEntry(firstKey: Bytes, blockOffset: u64)

  ghost predicate Sorted(es: seq<RunEntry>) {
    forall i, j :: 0 <= i < j < |es| ==> Less(es[i].key, es[j].key)
  }

  ghost predicate SortedIndex(es: seq<IndexEntry>) {
    forall i, j :: 0 <= i < j < |es| ==> Less(es[i].firstKey, es[j].firstKey)
  }

  /** What a linear search of the whole list finds. */
  function Find(es: seq<RunEntry>, key: Bytes): Option<Bytes> {
    if es == [] then None else if es[0].key == key then Some(es[0].value) else Find(es[1..], key)
  }

  /******* Data blocks *******/

  const DATA_TYPE: byte := 0x40
  const INDEX_TYPE: byte := 0x41
  const BLOCK_VERSION: byte := 1

  /** A length-prefixed byte string. */
  function Chunk(b: Bytes): (c: Bytes)
    ensures |c| > |b|
  {
    Varu(|b|) + b
  }

  function TakeChunk(rest: Bytes): (r: Outcome<(Bytes, Bytes)>)
    ensures r.Ok? ==> |r.value.1| < |rest|
  {
    var (len, tail) :- DecodeVaru(rest);
    if |tail| < len then Err(InvalidBlock) else Ok((tail[..len], tail[len..]))
  }

  lemma ChunkRoundTrip(b: Bytes, rest: Bytes)
    requires |b| < U64
    ensures TakeChunk(Chunk(b) + rest) == Ok((b, rest))
  {
    assert Chunk(b) + rest == Varu(|b|) + (b + rest);
    VaruRoundTrip(|b|, b + rest);
    assert (b + rest)[..|b|] == b && (b + rest)[|b|..] == rest;
  }

  function EntryBytes(e: RunEntry): (b: Bytes)
    ensures |b| > |e.key| + |e.value|
  {
    Chunk(e.key) + Chunk(e.value)
  }

  function EntriesBytes(es: seq<RunEntry>): Bytes {
    if es == [] then [] else EntryBytes(es[0]) + EntriesBytes(es[1..])
  }

  function DataBlock(es: seq<RunEntry>): (b: Bytes)
    ensures |b| > 2
  {
    [DATA_TYPE, BLOCK_VERSION] + Varu(|es|) + EntriesBytes(es)
  }

  predicate After(last: Option<Bytes>, key: Bytes) {
    last.None? || Less(last.value, key)
  }

  function TakeEntry(rest: Bytes, last: Option<Bytes>): Outcome<(RunEntry, Bytes)> {
    var (key, rest1) :- TakeChunk(rest);
    var (value, rest2) :- TakeChunk(rest1);
    if !After(last, key) then Err(InvalidBlock) else Ok((RunEntry(key, value), rest2))
  }

  function TakeEntries(rest: Bytes, count: nat, last: Option<Bytes>, found: seq<RunEntry>): Outcome<seq<RunEntry>>
    decreases count
  {
    if count == 0 then (if rest != [] then Err(InvalidBlock) else Ok(found))
    else
      var (e, rest') :- TakeEntry(rest, last);
      TakeEntries(rest', count - 1, Some(e.key), found + [e])
  }

  function CheckBlockHeader(bytes: Bytes, blockType: byte): Outcome<()> {
    if |bytes| < 2 then Err(InvalidBlock)
    else if bytes[0] != blockType then Err(InvalidRecordType)
    else if bytes[1] != BLOCK_VERSION then Err(UnsupportedRecordVersion)
    else Ok(())
  }

  function DecodeDataBlock(bytes: Bytes): Outcome<seq<RunEntry>> {
    var _ :- CheckBlockHeader(bytes, DATA_TYPE);
    var (count, rest) :- DecodeVaru(bytes[2..]);
    TakeEntries(rest, count, None, [])
  }

  method DecodeDataBlockBytes(bytes: Bytes) returns (r: Outcome<seq<RunEntry>>)
    ensures r == DecodeDataBlock(bytes)
  {
    hide DecodeVaru, TakeEntry;
    var _ :- CheckBlockHeader(bytes, DATA_TYPE);
    var count :- DecodeVaru(bytes[2..]);
    var rest, last, entries := count.1, None, [];
    for i := 0 to count.0
      invariant TakeEntries(count.1, count.0, None, []) == TakeEntries(rest, count.0 - i, last, entries)
    {
      var e :- TakeEntry(rest, last);
      rest, last, entries := e.1, Some(e.0.key), entries + [e.0];
    }
    if rest != [] {
      return Err(InvalidBlock);
    }
    return Ok(entries);
  }

  ghost predicate Bounded(es: seq<RunEntry>) {
    forall i :: 0 <= i < |es| ==> |es[i].key| < U64 && |es[i].value| < U64
  }

  lemma {:induction false} EntriesBounded(es: seq<RunEntry>)
    ensures |es| <= |EntriesBytes(es)|
    ensures |EntriesBytes(es)| < U64 ==> Bounded(es)
  {
    hide EntryBytes;
    if es != [] {
      EntriesBounded(es[1..]);
      assert es == [es[0]] + es[1..];
    }
  }

  /** The keys follow each other, and the first one follows `last`. */
  predicate Follow(last: Option<Bytes>, es: seq<RunEntry>)
    decreases |es|
  {
    es == [] || (After(last, es[0].key) && Follow(Some(es[0].key), es[1..]))
  }

  lemma {:induction false} FollowIff(last: Option<Bytes>, es: seq<RunEntry>)
    ensures Follow(last, es) <==> Sorted(es) && (es != [] ==> After(last, es[0].key))
    decreases |es|
  {
    if es != [] {
      var tail := es[1..];
      FollowIff(Some(es[0].key), tail);
      if Follow(last, es) {
        forall i, j | 0 <= i < j < |es|
          ensures Less(es[i].key, es[j].key)
        {
          if i == 0 {
            if j > 1 {
              LessTransitive(es[0].key, tail[0].key, tail[j - 1].key);
            }
          } else {
            assert es[i] == tail[i - 1] && es[j] == tail[j - 1];
          }
        }
      }
      if Sorted(es) {
        assert forall i :: 0 <= i < |tail| ==> tail[i] == es[i + 1];
      }
    }
  }

  lemma {:induction false} EntriesParse(es: seq<RunEntry>, more: Bytes, last: Option<Bytes>, found: seq<RunEntry>)
    requires Bounded(es)
    ensures TakeEntries(EntriesBytes(es) + more, |es|, last, found) ==
      if Follow(last, es) && more == [] then Ok(found + es) else Err(InvalidBlock)
    decreases |es|
  {
    hide EntryBytes, After, TakeEntry;
    if es == [] {
      assert found + es == found && EntriesBytes(es) + more == more;
    } else {
      var tail := es[1..];
      var rest := EntriesBytes(tail) + more;
      assert EntriesBytes(es) + more == EntryBytes(es[0]) + rest;
      EntryParses(es[0], last, rest);
      EntriesParse(tail, more, Some(es[0].key), found + [es[0]]);
      assert (found + [es[0]]) + tail == found + es;
    }
  }

  lemma EntryParses(e: RunEntry, last: Option<Bytes>, rest: Bytes)
    requires |e.key| < U64 && |e.value| < U64
    ensures TakeEntry(EntryBytes(e) + rest, last) == if After(last, e.key) then Ok((e, rest)) else Err(InvalidBlock)
  {
    hide Chunk, TakeChunk, After;
    assert EntryBytes(e) + rest == Chunk(e.key) + (Chunk(e.value) + rest);
    ChunkRoundTrip(e.key, Chunk(e.value) + rest);
    ChunkRoundTrip(e.value, rest);
  }

  /** A data block of any entries is accepted exactly when their keys strictly increase and nothing follows them. */
  lemma DataBlockIff(es: seq<RunEntry>, more: Bytes)
    requires |DataBlock(es)| < U64
    ensures DecodeDataBlock(DataBlock(es) + more) == if Sorted(es) && more == [] then Ok(es) else Err(InvalidBlock)
  {
    hide DecodeVaru, Varu, TakeEntries, EntriesBytes, Follow, Sorted;
    EntriesBounded(es);
    var body := EntriesBytes(es) + more;
    assert (DataBlock(es) + more)[2..] == Varu(|es|) + body;
    VaruRoundTrip(|es|, body);
    EntriesParse(es, more, None, []);
    FollowIff(None, es);
    assert [] + es == es;
  }

  /** A data block and an index block on disk. */
  lemma BlocksOnDisk()
    ensures DataBlock([RunEntry([7], [8, 9])]) == [0x40, 1] + [1] + ([1] + [7] + ([2] + [8, 9]))
    ensures IndexBlock([IndexEntry([7], 64)]) == [0x41, 1] + [1] + ([1] + [7] + ([64] + seq(7, _ => 0)))
  {
    var e, x := RunEntry([7], [8, 9]), IndexEntry([7], 64);
    assert [e][1..] == [] && [x][1..] == [];
    assert EntriesBytes([e]) == EntryBytes(e) + EntriesBytes([]) && IndexBytes([x]) == IndexEntryBytes(x) + IndexBytes([]);
    SevenZeros();
  }

  lemma SevenZeros()
    ensures Le(64, 8) == [64] + seq(7, _ => 0)
  {
    assert Le(0, 1) == [0] && Le(0, 3) == [0, 0, 0] && Le(0, 5) == [0, 0, 0, 0, 0] && Le(0, 7) == [0, 0, 0, 0, 0, 0, 0];
  }

  lemma DataBlockRoundTrip(es: seq<RunEntry>)
    requires Sorted(es) && |DataBlock(es)| < U64
    ensures DecodeDataBlock(DataBlock(es)) == Ok(es)
  {
    hide DataBlock, DecodeDataBlock;
    DataBlockIff(es, []);
    assert DataBlock(es) + [] == DataBlock(es);
  }

  /******* The index block *******/

  function IndexEntryBytes(e: IndexEntry): (b: Bytes)
    ensures |b| > |e.firstKey|
  {
    Chunk(e.firstKey) + Le(e.blockOffset, 8)
  }

  function IndexBytes(es: seq<IndexEntry>): Bytes {
    if es == [] then [] else IndexEntryBytes(es[0]) + IndexBytes(es[1..])
  }

  function IndexBlock(es: seq<IndexEntry>): (b: Bytes)
    ensures |b| > 2
  {
    [INDEX_TYPE, BLOCK_VERSION] + Varu(|es|) + IndexBytes(es)
  }

  function TakeIndexEntry(rest: Bytes, last: Option<Bytes>): Outcome<(IndexEntry, Bytes)> {
    var (len, tail) :- DecodeVaru(rest);
    if |tail| < len + 8 then Err(InvalidBlock)
    else if !After(last, tail[..len]) then Err(InvalidBlock)
    else
      Pow256Values();
      Ok((IndexEntry(tail[..len], FromLe(tail[len..len + 8])), tail[len + 8..]))
  }

  function TakeIndex(rest: Bytes, count: nat, last: Option<Bytes>, found: seq<IndexEntry>): Outcome<seq<IndexEntry>>
    decreases count
  {
    if count == 0 then (if rest != [] then Err(InvalidBlock) else Ok(found))
    else
      var (e, rest') :- TakeIndexEntry(rest, last);
      TakeIndex(rest', count - 1, Some(e.firstKey), found + [e])
  }

  function DecodeIndexBlock(bytes: Bytes): Outcome<seq<IndexEntry>> {
    var _ :- CheckBlockHeader(bytes, INDEX_TYPE);
    var (count, rest) :- DecodeVaru(bytes[2..]);
    TakeIndex(rest, count, None, [])
  }

  method DecodeIndexBlockBytes(bytes: Bytes) returns (r: Outcome<seq<IndexEntry>>)
    ensures r == DecodeIndexBlock(bytes)
  {
    hide DecodeVaru, TakeIndexEntry;
    var _ :- CheckBlockHeader(bytes, INDEX_TYPE);
    var count :- DecodeVaru(bytes[2..]);
    var rest, last, index := count.1, None, [];
    for i := 0 to count.0
      invariant TakeIndex(count.1, count.0, None, []) == TakeIndex(rest, count.0 - i, last, index)
    {
      var e :- TakeIndexEntry(rest, last);
      rest, last, index := e.1, Some(e.0.firstKey), index + [e.0];
    }
    if rest != [] {
      return Err(InvalidBlock);
    }
    return Ok(index);
  }

  predicate IndexOrdered(last: Option<Bytes>, es: seq<IndexEntry>)
    decreases |es|
  {
    es == [] || (After(last, es[0].firstKey) && IndexOrdered(Some(es[0].firstKey), es[1..]))
  }

  lemma {:induction false} IndexOrderedIff(last: Option<Bytes>, es: seq<IndexEntry>)
    ensures IndexOrdered(last, es) <==> SortedIndex(es) && (es != [] ==> After(last, es[0].firstKey))
    decreases |es|
  {
    if es != [] {
      var tail := es[1..];
      IndexOrderedIff(Some(es[0].firstKey), tail);
      if IndexOrdered(last, es) {
        forall i, j | 0 <= i < j < |es|
          ensures Less(es[i].firstKey, es[j].firstKey)
        {
          if i == 0 {
            if j > 1 {
              LessTransitive(es[0].firstKey, tail[0].firstKey, tail[j - 1].firstKey);
            }
          } else {
            assert es[i] == tail[i - 1] && es[j] == tail[j - 1];
          }
        }
      }
      if SortedIndex(es) {
        assert forall i :: 0 <= i < |tail| ==> tail[i] == es[i + 1];
      }
    }
  }

  lemma IndexEntryParses(e: IndexEntry, last: Option<Bytes>, rest: Bytes)
    requires |e.firstKey| < U64
    ensures TakeIndexEntry(IndexEntryBytes(e) + rest, last) ==
      if After(last, e.firstKey) then Ok((e, rest)) else Err(InvalidBlock)
  {
    hide Le, FromLe, Varu, DecodeVaru, After;
    var off := Le(e.blockOffset, 8);
    var tail := e.firstKey + off + rest;
    assert IndexEntryBytes(e) + rest == Varu(|e.firstKey|) + tail;
    VaruRoundTrip(|e.firstKey|, tail);
    var n := |e.firstKey|;
    assert tail[..n] == e.firstKey && tail[n..n + 8] == off && tail[n + 8..] == rest;
    Pow256Values();
    LeRoundTrip(e.blockOffset, 8);
  }

  lemma {:induction false} IndexParses(es: seq<IndexEntry>, more: Bytes, last: Option<Bytes>, found: seq<IndexEntry>)
    requires forall i :: 0 <= i < |es| ==> |es[i].firstKey| < U64
    ensures TakeIndex(IndexBytes(es) + more, |es|, last, found) ==
      if IndexOrdered(last, es) && more == [] then Ok(found + es) else Err(InvalidBlock)
    decreases |es|
  {
    hide IndexEntryBytes, TakeIndexEntry, After;
    if es == [] {
      assert found + es == found && IndexBytes(es) + more == more;
    } else {
      var tail := es[1..];
      var rest := IndexBytes(tail) + more;
      assert IndexBytes(es) + more == IndexEntryBytes(es[0]) + rest;
      IndexEntryParses(es[0], last, rest);
      IndexParses(tail, more, Some(es[0].firstKey), found + [es[0]]);
      assert (found + [es[0]]) + tail == found + es;
    }
  }

  lemma {:induction false} IndexKeysBounded(es: seq<IndexEntry>)
    ensures |es| <= |IndexBytes(es)|
    ensures |IndexBytes(es)| < U64 ==> forall i :: 0 <= i < |es| ==> |es[i].firstKey| < U64
  {
    hide IndexEntryBytes;
    if es != [] {
      IndexKeysBounded(es[1..]);
      assert es == [es[0]] + es[1..];
    }
  }

  /** An index block of any entries is accepted exactly when their keys strictly increase and nothing follows them. */
  lemma IndexBlockIff(es: seq<IndexEntry>, more: Bytes)
    requires |IndexBlock(es)| < U64
    ensures DecodeIndexBlock(IndexBlock(es) + more) == if SortedIndex(es) && more == [] then Ok(es) else Err(InvalidBlock)
  {
    hide DecodeVaru, Varu, TakeIndex, IndexBytes, IndexOrdered, SortedIndex;
    IndexKeysBounded(es);
    var body := IndexBytes(es) + more;
    assert (IndexBlock(es) + more)[2..] == Varu(|es|) + body;
    VaruRoundTrip(|es|, body);
    IndexParses(es, more, None, []);
    IndexOrderedIff(None, es);
    assert [] + es == es;
  }

  lemma IndexBlockRoundTrip(es: seq<IndexEntry>)
    requires SortedIndex(es) && |IndexBlock(es)| < U64
    ensures DecodeIndexBlock(IndexBlock(es)) == Ok(es)
  {
    hide IndexBlock, DecodeIndexBlock;
    IndexBlockIff(es, []);
    assert IndexBlock(es) + [] == IndexBlock(es);
  }

  /******* File layout *******/

  const FOOTER_MAGIC: Bytes := [83, 75, 78, 82, 85, 78, 0, 1]
  const FOOTER_LEN: nat := 20

  function Footer(indexOffset: u64, sum: u32): (b: Bytes)
    ensures |b| == FOOTER_LEN
  {
    FOOTER_MAGIC + Le(indexOffset, 8) + Le(sum, 4)
  }

  type Blocks = seq<seq<RunEntry>>

  function BlocksBytes(bs: Blocks): Bytes {
    if bs == [] then [] else BlocksBytes(bs[..|bs| - 1]) + DataBlock(bs[|bs| - 1])
  }

  function Concat(bs: Blocks): seq<RunEntry> {
    if bs == [] then [] else Concat(bs[..|bs| - 1]) + bs[|bs| - 1]
  }

  /** Where the index starts in the file. */
  function IndexStart(bs: Blocks): nat {
    F.HEADER_LEN + |BlocksBytes(bs)|
  }

  /** Where block `i` starts in the file. */
  function BlockStart(bs: Blocks, i: nat): nat
    requires i <= |bs|
  {
    F.HEADER_LEN + |BlocksBytes(bs[..i])|
  }

  predicate NoneEmpty(bs: Blocks) {
    forall i :: 0 <= i < |bs| ==> bs[i] != []
  }

  /** The file is short enough for its offsets to be u64. */
  predicate Short(bs: Blocks) {
    F.HEADER_LEN + |BlocksBytes(bs)| < U64
  }

  lemma {:induction false} BlocksPrefix(bs: Blocks, i: nat)
    requires i <= |bs|
    ensures BlocksBytes(bs[..i]) <= BlocksBytes(bs)
    ensures i < |bs| ==> |BlocksBytes(bs[..i])| < |BlocksBytes(bs)|
    decreases |bs|
  {
    hide DataBlock;
    if i == |bs| {
      assert bs[..i] == bs;
    } else {
      var n := |bs| - 1;
      BlocksPrefix(bs[..n], i);
      assert bs[..n][..i] == bs[..i];
    }
  }

  function IndexFor(bs: Blocks): (index: seq<IndexEntry>)
    requires NoneEmpty(bs) && Short(bs)
    ensures |index| == |bs|
  {
    seq(|bs|, i requires 0 <= i < |bs| => (BlocksPrefix(bs, i); IndexEntry(bs[i][0].key, BlockStart(bs, i))))
  }

  /** Everything up to the footer. */
  function RunBody(header: Bytes, bs: Blocks): Bytes
    requires NoneEmpty(bs) && Short(bs)
  {
    header + BlocksBytes(bs) + IndexBlock(IndexFor(bs))
  }

  function RunBytes(crc: Crc, header: Bytes, bs: Blocks): Bytes
    requires NoneEmpty(bs) && Short(bs)
  {
    RunBody(header, bs) + Footer(IndexStart(bs), crc(RunBody(header, bs)))
  }

  function HeaderFor(crc: Crc, created: u64): (b: Bytes)
    ensures |b| == F.HEADER_LEN
  {
    F.Encode(crc, F.Header(F.RunFile, 0, created, seq(32, _ => 0)))
  }

  /******* Reading *******/

  datatype Reader = Reader(file: Bytes, indexOffset: nat, index: seq<IndexEntry>)

  function CheckHeader(crc: Crc, file: Bytes): Outcome<()> {
    if |file| < F.HEADER_LEN then Err(BadHeader)
    else
      var header :- F.Decode(crc, file[..F.HEADER_LEN]);
      if header.kind != F.RunFile then Err(BadHeader) else Ok(())
  }

  lemma HeaderIff(crc: Crc, file: Bytes)
    ensures CheckHeader(crc, file).Ok? <==> F.Begins(crc, file, F.RunFile)
  {
    hide F.Decode, F.Begins;
    F.BeginsIff(crc, file, F.RunFile);
  }

  predicate OffsetsIncrease(index: seq<IndexEntry>) {
    forall i :: 0 <= i < |index| - 1 ==> index[i].blockOffset < index[i + 1].blockOffset
  }

  function OpenRun(crc: Crc, file: Bytes): Outcome<Reader> {
    var _ :- CheckHeader(crc, file);
    if |file| < F.HEADER_LEN + FOOTER_LEN then Err(BadFooter)
    else
      var end := |file| - FOOTER_LEN;
      var footer := file[end..];
      var at, sum := LeAt(footer, 8, 8), LeAt(footer, 16, 4);
      if footer[0..8] != FOOTER_MAGIC || at < F.HEADER_LEN || at > end then Err(BadFooter)
      else if sum != 0 && sum != crc(file[..end]) then Err(FooterCrcMismatch)
      else
        var index :- DecodeIndexBlock(file[at..end]);
        if !OffsetsIncrease(index) then Err(InvalidBlock)
        else if index != [] && index[|index| - 1].blockOffset >= at then Err(BadFooter)
        else Ok(Reader(file, at, index))
  }

  function BlockEnd(r: Reader, i: nat): nat
    requires i < |r.index|
  {
    if i + 1 < |r.index| then r.index[i + 1].blockOffset else r.indexOffset
  }

  function ReadBlock(r: Reader, i: nat): Outcome<seq<RunEntry>>
    requires i < |r.index|
  {
    var start, end := r.index[i].blockOffset, BlockEnd(r, i);
    if end <= start || end > |r.file| then Err(InvalidBlock) else DecodeDataBlock(r.file[start..end])
  }

  function ReadBlocks(r: Reader, i: nat, found: seq<RunEntry>): Outcome<seq<RunEntry>>
    requires i <= |r.index|
    decreases |r.index| - i
  {
    if i == |r.index| then Ok(found)
    else
      var es :- ReadBlock(r, i);
      ReadBlocks(r, i + 1, found + es)
  }

  method ReadAll(r: Reader) returns (out: Outcome<seq<RunEntry>>)
    ensures out == ReadBlocks(r, 0, [])
  {
    hide ReadBlock;
    var found := [];
    for i := 0 to |r.index|
      invariant ReadBlocks(r, 0, []) == ReadBlocks(r, i, found)
    {
      var es :- ReadBlock(r, i);
      found := found + es;
    }
    return Ok(found);
  }

  /** The last block whose first key is not above `key`. */
  ghost predicate IsBlockFor(index: seq<IndexEntry>, key: Bytes, block: Option<nat>) {
    if block.None? then forall i :: 0 <= i < |index| ==> Less(key, index[i].firstKey)
    else
      && block.value < |index|
      && (forall i :: 0 <= i <= block.value ==> !Less(key, index[i].firstKey))
      && (forall i :: block.value < i < |index| ==> Less(key, index[i].firstKey))
  }

  /** The last block whose first key is not above `key`, searched from the end. */
  function BlockFor(index: seq<IndexEntry>, key: Bytes): (block: Option<nat>)
    ensures block.Some? ==> block.value < |index|
  {
    if index == [] then None
    else if !Less(key, index[|index| - 1].firstKey) then Some(|index| - 1)
    else BlockFor(index[..|index| - 1], key)
  }

  lemma {:induction false} BlockForIs(index: seq<IndexEntry>, key: Bytes, block: Option<nat>)
    requires IsBlockFor(index, key, block)
    ensures block == BlockFor(index, key)
    decreases |index|
  {
    hide Less;
    if index != [] && block != Some(|index| - 1) {
      BlockForIs(index[..|index| - 1], key, block);
    }
  }

  /** Binary search over the first keys. */
  method FindBlockForKey(index: seq<IndexEntry>, key: Bytes) returns (block: Option<nat>)
    requires SortedIndex(index)
    ensures IsBlockFor(index, key, block) && block == BlockFor(index, key)
  {
    var lo, hi := 0, |index|;
    while lo < hi
      invariant 0 <= lo <= hi <= |index|
      invariant forall i :: 0 <= i < lo ==> !Less(key, index[i].firstKey)
      invariant forall i :: hi <= i < |index| ==> Less(key, index[i].firstKey)
    {
      var mid := (lo + hi) / 2;
      if !Less(key, index[mid].firstKey) {
        forall i | 0 <= i < mid
          ensures !Less(key, index[i].firstKey)
        {
          NotLessBelow(index[i].firstKey, index[mid].firstKey, key);
        }
        lo := mid + 1;
      } else {
        forall i | mid < i < |index|
          ensures Less(key, index[i].firstKey)
        {
          LessTransitive(key, index[mid].firstKey, index[i].firstKey);
        }
        hi := mid;
      }
    }
    block := if lo == 0 then None else Some(lo - 1);
    BlockForIs(index, key, block);
  }

  lemma NotLessBelow(a: Bytes, b: Bytes, key: Bytes)
    requires Less(a, b) && !Less(key, b)
    ensures !Less(key, a)
  {
    if Less(key, a) {
      LessTransitive(key, a, b);
    }
  }

  /** The in-block scan, which gives up at the first larger key. */
  function ScanBlock(es: seq<RunEntry>, key: Bytes): Option<Bytes> {
    if es == [] then None
    else if es[0].key == key then Some(es[0].value)
    else if Less(key, es[0].key) then None
    else ScanBlock(es[1..], key)
  }

  method ScanBlockFor(es: seq<RunEntry>, key: Bytes) returns (r: Option<Bytes>)
    ensures r == ScanBlock(es, key)
  {
    for i := 0 to |es|
      invariant ScanBlock(es, key) == ScanBlock(es[i..], key)
    {
      assert es[i..][1..] == es[i + 1..];
      if es[i].key == key {
        return Some(es[i].value);
      }
      if Less(key, es[i].key) {
        return None;
      }
    }
    return None;
  }

  /** The answer once the block to look in is known. */
  function GetIn(r: Reader, key: Bytes, block: Option<nat>): Outcome<Option<Bytes>>
    requires block.Some? ==> block.value < |r.index|
  {
    if block.None? then Ok(None)
    else
      var es :- ReadBlock(r, block.value);
      Ok(ScanBlock(es, key))
  }

  method Get(r: Reader, key: Bytes) returns (out: Outcome<Option<Bytes>>)
    requires SortedIndex(r.index)
    ensures out == GetIn(r, key, BlockFor(r.index, key))
    ensures IsBlockFor(r.index, key, BlockFor(r.index, key))
  {
    hide ReadBlock;
    var block := FindBlockForKey(r.index, key);
    if block.None? {
      return Ok(None);
    }
    var es :- ReadBlock(r, block.value);
    var found := ScanBlockFor(es, key);
    return Ok(found);
  }

  lemma SortedAppend(es: seq<IndexEntry>, e: IndexEntry)
    requires SortedIndex(es) && (es != [] ==> Less(es[|es| - 1].firstKey, e.firstKey))
    ensures SortedIndex(es + [e])
  {
    forall i | 0 <= i < |es|
      ensures Less(es[i].firstKey, e.firstKey)
    {
      if i < |es| - 1 {
        LessTransitive(es[i].firstKey, es[|es| - 1].firstKey, e.firstKey);
      }
    }
  }

  lemma {:induction false} DecodedIndexSorted(rest: Bytes, count: nat, last: Option<Bytes>, found: seq<IndexEntry>)
    requires SortedIndex(found) && last == (if found == [] then None else Some(found[|found| - 1].firstKey))
    requires TakeIndex(rest, count, last, found).Ok?
    ensures SortedIndex(TakeIndex(rest, count, last, found).value)
    decreases count
  {
    if count > 0 {
      var (e, rest') := TakeIndexEntry(rest, last).value;
      SortedAppend(found, e);
      DecodedIndexSorted(rest', count - 1, Some(e.firstKey), found + [e]);
    }
  }

  /** What a run must be to open: a run header, at its end a footer whose checksum is zero or that of all before it, and
      before the footer an index of increasing block offsets that lie before it. */
  ghost predicate Opens(crc: Crc, file: Bytes, r: Reader) {
    && |file| >= F.HEADER_LEN + FOOTER_LEN && F.Begins(crc, file, F.RunFile) && r.file == file
    && var end := |file| - FOOTER_LEN;
       && F.HEADER_LEN <= r.indexOffset <= end && r.indexOffset < U64
       && (exists sum: u32 :: file[end..] == Footer(r.indexOffset, sum) && (sum == 0 || sum == crc(file[..end])))
       && DecodeIndexBlock(file[r.indexOffset..end]) == Ok(r.index)
       && BlocksFollow(r)
  }

  /** Each block ends behind its start: at the next one, and the last at the index. */
  predicate BlocksFollow(r: Reader) {
    forall i :: 0 <= i < |r.index| ==> r.index[i].blockOffset < BlockEnd(r, i)
  }

  lemma FooterIff(footer: Bytes, at: u64, sum: u32)
    requires |footer| == FOOTER_LEN
    ensures footer == Footer(at, sum)
      <==> footer[0..8] == FOOTER_MAGIC && LeAt(footer, 8, 8) == at && LeAt(footer, 16, 4) == sum
  {
    hide Le, FromLe;
    if footer[0..8] == FOOTER_MAGIC && LeAt(footer, 8, 8) == at && LeAt(footer, 16, 4) == sum {
      LeOfFromLe(footer[8..16]);
      LeOfFromLe(footer[16..20]);
      assert footer == footer[0..8] + footer[8..16] + footer[16..20];
    }
    if footer == Footer(at, sum) {
      FooterFields(at, sum);
    }
  }

  lemma OffsetsIff(r: Reader)
    ensures OffsetsIncrease(r.index) && (r.index != [] ==> r.index[|r.index| - 1].blockOffset < r.indexOffset)
      <==> BlocksFollow(r)
  {
    if BlocksFollow(r) {
      assert r.index != [] ==> r.index[|r.index| - 1].blockOffset < BlockEnd(r, |r.index| - 1);
      forall i | 0 <= i < |r.index| - 1
        ensures r.index[i].blockOffset < r.index[i + 1].blockOffset
      {
        assert r.index[i].blockOffset < BlockEnd(r, i);
      }
    }
  }

  /** A file opens as exactly that. */
  lemma OpenRunIff(crc: Crc, file: Bytes, r: Reader)
    ensures OpenRun(crc, file) == Ok(r) <==> Opens(crc, file, r)
  {
    hide DecodeIndexBlock, CheckHeader, LeAt, Footer, OffsetsIncrease, BlocksFollow, F.Begins;
    Pow256Values();
    OffsetsIff(r);
    HeaderIff(crc, file);
    if OpenRun(crc, file) == Ok(r) {
      var end := |file| - FOOTER_LEN;
      FooterIff(file[end..], r.indexOffset, LeAt(file[end..], 16, 4));
    }
    if Opens(crc, file, r) {
      var end := |file| - FOOTER_LEN;
      var sum: u32 :| file[end..] == Footer(r.indexOffset, sum) && (sum == 0 || sum == crc(file[..end]));
      FooterIff(file[end..], r.indexOffset, sum);
    }
  }

  /** A run that is damaged anywhere before its footer, so that its checksum is another, does not open. */
  lemma DamagedRunRefused(crc: Crc, file: Bytes, at: u64, sum: u32)
    requires |file| >= F.HEADER_LEN + FOOTER_LEN && F.Begins(crc, file, F.RunFile)
    requires file[|file| - FOOTER_LEN..] == Footer(at, sum) && F.HEADER_LEN <= at <= |file| - FOOTER_LEN
    requires sum != 0 && sum != crc(file[..|file| - FOOTER_LEN])
    ensures OpenRun(crc, file) == Err(FooterCrcMismatch)
  {
    hide DecodeIndexBlock, CheckHeader, LeAt, Footer, F.Begins;
    HeaderIff(crc, file);
    FooterFields(at, sum);
  }

  /** Any run that opens has an index the binary search can rely on. */
  lemma OpenedIndexSorted(crc: Crc, file: Bytes)
    requires OpenRun(crc, file).Ok?
    ensures SortedIndex(OpenRun(crc, file).value.index)
  {
    hide TakeIndex, F.Decode, LeAt;
    var end := |file| - FOOTER_LEN;
    var at := LeAt(file[end..], 8, 8);
    var bytes := file[at..end];
    DecodedIndexSorted(DecodeVaru(bytes[2..]).value.1, DecodeVaru(bytes[2..]).value.0, None, []);
  }

  /******* Round trip *******/

  lemma FooterFields(indexOffset: u64, sum: u32)
    ensures var f := Footer(indexOffset, sum);
      f[0..8] == FOOTER_MAGIC && LeAt(f, 8, 8) == indexOffset && LeAt(f, 16, 4) == sum
  {
    hide Le, FromLe;
    Pow256Values();
    var at, crc := Le(indexOffset, 8), Le(sum, 4);
    var f := Footer(indexOffset, sum);
    assert f[8..16] == at && f[16..20] == crc;
    LeRoundTrip(indexOffset, 8);
    LeRoundTrip(sum, 4);
  }

  /** Every block is sorted and lies wholly below the next one. */
  ghost predicate SortedBlocks(bs: Blocks) {
    NoneEmpty(bs) && Sorted(Concat(bs))
  }

  lemma {:induction false} ConcatAt(bs: Blocks, i: nat)
    requires i < |bs|
    ensures |Concat(bs)| >= |Concat(bs[..i])| + |bs[i]|
    ensures Concat(bs) == Concat(bs[..i]) + bs[i] + Concat(bs)[|Concat(bs[..i])| + |bs[i]|..]
    decreases |bs|
  {
    var n := |bs| - 1;
    if i < n {
      ConcatAt(bs[..n], i);
      assert bs[..n][..i] == bs[..i];
      var before := Concat(bs[..n]);
      var k := |Concat(bs[..i])| + |bs[i]|;
      assert before == (Concat(bs[..i]) + bs[i]) + before[k..];
      assert (before + bs[n])[k..] == before[k..] + bs[n];
    }
  }

  lemma BlockSorted(bs: Blocks, i: nat)
    requires SortedBlocks(bs) && i < |bs|
    ensures Sorted(bs[i])
  {
    ConcatAt(bs, i);
    var k, all := |Concat(bs[..i])|, Concat(bs);
    assert forall j :: 0 <= j < |bs[i]| ==> bs[i][j] == all[k + j];
  }

  lemma {:induction false} ConcatGrows(bs: Blocks, i: nat, j: nat)
    requires i <= j <= |bs|
    ensures |Concat(bs[..i])| <= |Concat(bs[..j])|
    decreases j - i
  {
    if i < j {
      ConcatGrows(bs, i, j - 1);
      assert bs[..j][..j - 1] == bs[..j - 1];
    }
  }

  /** Entries of an earlier block are below those of a later one. */
  lemma BlocksOrdered(bs: Blocks, i: nat, j: nat, a: nat, b: nat)
    requires SortedBlocks(bs) && i < j < |bs| && a < |bs[i]| && b < |bs[j]|
    ensures Less(bs[i][a].key, bs[j][b].key)
  {
    ConcatAt(bs, i);
    ConcatAt(bs, j);
    ConcatGrows(bs, i + 1, j);
    assert bs[..i + 1][..i] == bs[..i];
    var all := Concat(bs);
    assert all[|Concat(bs[..i])| + a] == bs[i][a];
    assert all[|Concat(bs[..j])| + b] == bs[j][b];
  }

  lemma IndexForSorted(bs: Blocks)
    requires SortedBlocks(bs) && Short(bs)
    ensures SortedIndex(IndexFor(bs)) && OffsetsIncrease(IndexFor(bs))
    ensures forall i :: 0 <= i < |bs| ==> IndexFor(bs)[i].blockOffset < IndexStart(bs)
  {
    hide BlocksBytes, Concat;
    var index := IndexFor(bs);
    forall i, j | 0 <= i < j < |index|
      ensures Less(index[i].firstKey, index[j].firstKey) && index[i].blockOffset < index[j].blockOffset
    {
      BlocksOrdered(bs, i, j, 0, 0);
      BlocksPrefix(bs[..j], i);
      assert bs[..j][..i] == bs[..i];
    }
    forall i | 0 <= i < |bs|
      ensures index[i].blockOffset < IndexStart(bs)
    {
      BlocksPrefix(bs, i);
    }
  }

  /** Opening what the writer wrote succeeds and finds the index of first keys and offsets. */
  lemma OpenWritten(crc: Crc, created: u64, bs: Blocks)
    requires SortedBlocks(bs) && Short(bs) && |RunBytes(crc, HeaderFor(crc, created), bs)| < U64
    ensures var file := RunBytes(crc, HeaderFor(crc, created), bs);
      OpenRun(crc, file) == Ok(Reader(file, IndexStart(bs), IndexFor(bs)))
  {
    hide F.Encode, F.Decode, Footer, IndexBlock, DecodeIndexBlock, BlocksBytes, LeAt;
    var header := HeaderFor(crc, created);
    var body, file := RunBody(header, bs), RunBytes(crc, header, bs);
    var end := |file| - FOOTER_LEN;
    F.HeaderRoundTrip(crc, F.Header(F.RunFile, 0, created, seq(32, _ => 0)), []);
    assert header + [] == header && file[..F.HEADER_LEN] == header;
    assert file[..end] == body && file[end..] == Footer(IndexStart(bs), crc(body));
    FooterFields(IndexStart(bs), crc(body));
    assert file[IndexStart(bs)..end] == IndexBlock(IndexFor(bs));
    IndexForSorted(bs);
    IndexBlockRoundTrip(IndexFor(bs));
  }

  /** Each block of a written run is read back as it was. */
  lemma ReadWrittenBlock(crc: Crc, header: Bytes, bs: Blocks, i: nat)
    requires |header| == F.HEADER_LEN && SortedBlocks(bs) && Short(bs) && i < |bs|
    ensures ReadBlock(Reader(RunBytes(crc, header, bs), IndexStart(bs), IndexFor(bs)), i) == Ok(bs[i])
  {
    hide DataBlock, DecodeDataBlock, IndexBlock, Footer, Concat;
    var file := RunBytes(crc, header, bs);
    var r := Reader(file, IndexStart(bs), IndexFor(bs));
    var upto := BlocksBytes(bs[..i + 1]);
    BlocksPrefix(bs, i);
    BlocksPrefix(bs, i + 1);
    assert bs[..i + 1][..i] == bs[..i];
    assert upto == BlocksBytes(bs[..i]) + DataBlock(bs[i]);
    assert bs[..|bs|] == bs;
    assert BlockEnd(r, i) == F.HEADER_LEN + |upto|;
    var start := BlockStart(bs, i);
    assert file[..F.HEADER_LEN + |upto|] == header + upto;
    assert file[start..F.HEADER_LEN + |upto|] == (header + upto)[start..];
    assert (header + upto)[start..] == DataBlock(bs[i]);
    BlockSorted(bs, i);
    DataBlockRoundTrip(bs[i]);
  }

  /** Scanning a written run returns the entries exactly. */
  lemma {:induction false} ReadAllWritten(crc: Crc, header: Bytes, bs: Blocks, i: nat)
    requires |header| == F.HEADER_LEN && SortedBlocks(bs) && Short(bs) && i <= |bs|
    ensures ReadBlocks(Reader(RunBytes(crc, header, bs), IndexStart(bs), IndexFor(bs)), i, Concat(bs[..i])) == Ok(Concat(bs))
    decreases |bs| - i
  {
    hide ReadBlock, RunBytes;
    if i == |bs| {
      assert bs[..i] == bs;
    } else {
      ReadWrittenBlock(crc, header, bs, i);
      assert bs[..i + 1][..i] == bs[..i];
      ReadAllWritten(crc, header, bs, i + 1);
    }
  }

  /******* Point lookups *******/

  lemma {:induction false} FindAbsent(es: seq<RunEntry>, key: Bytes)
    requires forall i :: 0 <= i < |es| ==> es[i].key != key
    ensures Find(es, key) == None
  {
    if es != [] {
      FindAbsent(es[1..], key);
    }
  }

  lemma {:induction false} FindAppend(xs: seq<RunEntry>, ys: seq<RunEntry>, key: Bytes)
    ensures Find(xs + ys, key) == if Find(xs, key).Some? then Find(xs, key) else Find(ys, key)
  {
    if xs == [] {
      assert xs + ys == ys;
    } else {
      FindAppend(xs[1..], ys, key);
      assert (xs + ys)[1..] == xs[1..] + ys;
    }
  }

  /** Giving up at the first larger key loses nothing in a sorted block. */
  lemma {:induction false} ScanIsFind(es: seq<RunEntry>, key: Bytes)
    requires Sorted(es)
    ensures ScanBlock(es, key) == Find(es, key)
  {
    if es != [] {
      if es[0].key != key && Less(key, es[0].key) {
        forall i | 0 <= i < |es|
          ensures es[i].key != key
        {
          if i > 0 {
            LessTransitive(key, es[0].key, es[i].key);
          }
          LessIrreflexive(key);
        }
        FindAbsent(es, key);
      } else {
        ScanIsFind(es[1..], key);
      }
    }
  }

  /** Only the block whose first key is the last one not above `key` can hold it. */
  lemma OnlyBlockFor(bs: Blocks, key: Bytes, block: Option<nat>, i: nat, a: nat)
    requires SortedBlocks(bs) && Short(bs) && IsBlockFor(IndexFor(bs), key, block)
    requires i < |bs| && a < |bs[i]| && block != Some(i)
    ensures bs[i][a].key != key
  {
    hide Concat, BlocksBytes;
    var index := IndexFor(bs);
    if block.Some? && i < block.value {
      BlocksOrdered(bs, i, block.value, a, 0);
      assert index[block.value].firstKey == bs[block.value][0].key;
    } else {
      assert index[i].firstKey == bs[i][0].key && Less(key, bs[i][0].key);
      if a > 0 {
        BlockSorted(bs, i);
        LessTransitive(key, bs[i][0].key, bs[i][a].key);
      }
      LessIrreflexive(key);
    }
  }

  lemma {:induction false} FindInBlocks(bs: Blocks, n: nat, key: Bytes, block: Option<nat>)
    requires SortedBlocks(bs) && Short(bs) && IsBlockFor(IndexFor(bs), key, block) && n <= |bs|
    ensures Find(Concat(bs[..n]), key) == if block.Some? && block.value < n then Find(bs[block.value], key) else None
    decreases n
  {
    hide BlocksBytes, IsBlockFor;
    if n > 0 {
      var k := n - 1;
      assert bs[..n][..k] == bs[..k];
      FindInBlocks(bs, k, key, block);
      FindAppend(Concat(bs[..k]), bs[k], key);
      if block != Some(k) {
        forall a | 0 <= a < |bs[k]|
          ensures bs[k][a].key != key
        {
          OnlyBlockFor(bs, key, block, k, a);
        }
        FindAbsent(bs[k], key);
      }
    }
  }

  /** The indexed lookup of a written run agrees with a linear search of all its entries. */
  lemma GetIsFind(crc: Crc, header: Bytes, bs: Blocks, key: Bytes, block: Option<nat>)
    requires |header| == F.HEADER_LEN && SortedBlocks(bs) && Short(bs) && IsBlockFor(IndexFor(bs), key, block)
    ensures GetIn(Reader(RunBytes(crc, header, bs), IndexStart(bs), IndexFor(bs)), key, block) == Ok(Find(Concat(bs), key))
  {
    hide ReadBlock, RunBytes, BlocksBytes, Concat;
    FindInBlocks(bs, |bs|, key, block);
    assert bs[..|bs|] == bs;
    if block.Some? {
      ReadWrittenBlock(crc, header, bs, block.value);
      BlockSorted(bs, block.value);
      ScanIsFind(bs[block.value], key);
    }
  }

  /******* Files known to be runs *******/

  /** The file is a finished run holding exactly the entries `es`, cut into blocks somehow. */
  ghost predicate IsRunOf(crc: Crc, file: Bytes, es: seq<RunEntry>) {
    exists created: u64, bs: Blocks :: IsRunWith(crc, file, es, created, bs)
  }

  ghost predicate IsRunWith(crc: Crc, file: Bytes, es: seq<RunEntry>, created: u64, bs: Blocks) {
    && SortedBlocks(bs) && Short(bs) && Concat(bs) == es
    && file == RunBytes(crc, HeaderFor(crc, created), bs) && |file| < U64
  }

  method OpenFile(crc: Crc, file: Bytes) returns (r: Outcome<Reader>)
    ensures r == OpenRun(crc, file)
  {
    hide F.Decode, DecodeIndexBlock, LeAt;
    var _ :- CheckHeader(crc, file);
    if |file| < F.HEADER_LEN + FOOTER_LEN {
      return Err(BadFooter);
    }
    var end := |file| - FOOTER_LEN;
    var footer := file[end..];
    var at, sum := LeAt(footer, 8, 8), LeAt(footer, 16, 4);
    if footer[0..8] != FOOTER_MAGIC || at < F.HEADER_LEN || at > end {
      return Err(BadFooter);
    }
    if sum != 0 && sum != crc(file[..end]) {
      return Err(FooterCrcMismatch);
    }
    var index := DecodeIndexBlockBytes(file[at..end]);
    if index.Err? {
      return Err(index.error);
    }
    if !OffsetsIncrease(index.value) {
      return Err(InvalidBlock);
    }
    if index.value != [] && index.value[|index.value| - 1].blockOffset >= at {
      return Err(BadFooter);
    }
    return Ok(Reader(file, at, index.value));
  }

  /** What looking a key up in any file gives, each error in place. */
  function GetFromFile(crc: Crc, file: Bytes, key: Bytes): Outcome<Option<Bytes>> {
    var reader :- OpenRun(crc, file);
    GetIn(reader, key, BlockFor(reader.index, key))
  }

  method LookUp(crc: Crc, file: Bytes, key: Bytes) returns (r: Outcome<Option<Bytes>>)
    ensures r == GetFromFile(crc, file, key)
  {
    hide OpenRun, GetIn, BlockFor;
    var reader :- OpenFile(crc, file);
    OpenedIndexSorted(crc, file);
    r := Get(reader, key);
  }

  lemma {:induction false} BlockForFinds(index: seq<IndexEntry>, key: Bytes)
    requires SortedIndex(index)
    ensures IsBlockFor(index, key, BlockFor(index, key))
    decreases |index|
  {
    hide Less;
    if index != [] {
      var n := |index| - 1;
      if !Less(key, index[n].firstKey) {
        forall i | 0 <= i < n
          ensures !Less(key, index[i].firstKey)
        {
          NotLessBelow(index[i].firstKey, index[n].firstKey, key);
        }
      } else {
        BlockForFinds(index[..n], key);
      }
    }
  }

  /** Looking a key up in a run file: the value a linear search of its entries finds. */
  lemma LookUpIsFind(crc: Crc, file: Bytes, es: seq<RunEntry>, key: Bytes)
    requires IsRunOf(crc, file, es)
    ensures GetFromFile(crc, file, key) == Ok(Find(es, key))
  {
    hide OpenRun, RunBytes, Concat, BlocksBytes, ReadBlock, BlockFor, GetIn, IsBlockFor;
    var created: u64, bs: Blocks :| IsRunWith(crc, file, es, created, bs);
    OpenWritten(crc, created, bs);
    OpenedIndexSorted(crc, file);
    var index := OpenRun(crc, file).value.index;
    BlockForFinds(index, key);
    GetIsFind(crc, HeaderFor(crc, created), bs, key, BlockFor(index, key));
  }

  /** Scanning a run file: exactly its entries, in order. */
  lemma ScanIsEntries(crc: Crc, file: Bytes, es: seq<RunEntry>)
    requires IsRunOf(crc, file, es)
    ensures OpenRun(crc, file).Ok? && ReadBlocks(OpenRun(crc, file).value, 0, []) == Ok(es)
  {
    hide OpenRun, RunBytes, BlocksBytes, ReadBlock;
    var created: u64, bs: Blocks :| IsRunWith(crc, file, es, created, bs);
    OpenWritten(crc, created, bs);
    assert bs[..0] == [];
    ReadAllWritten(crc, HeaderFor(crc, created), bs, 0);
  }

  /******* Writing *******/

  /** An offset in saturating u64 arithmetic. */
  function Saturate(n: nat): (r: u64) {
    if n < U64 then n else U64 - 1
  }

  function EntrySizeEstimate(e: RunEntry): nat {
    2 + |e.key| + |e.value| + 20
  }

  function SizeOf(es: seq<RunEntry>): nat {
    if es == [] then 0 else SizeOf(es[..|es| - 1]) + EntrySizeEstimate(es[|es| - 1])
  }

  lemma SizeGrows(es: seq<RunEntry>, e: RunEntry)
    ensures SizeOf(es + [e]) == SizeOf(es) + EntrySizeEstimate(e)
  {
    assert (es + [e])[..|es|] == es;
  }

  /** Blocks hold at least this much, but for the last. */
  function BlockLimit(targetBlockSize: nat): nat {
    if targetBlockSize > 256 then targetBlockSize else 256
  }

  lemma NoSize()
    ensures SizeOf([]) == 0
  {
  }

  /** The block is cut by the entry that takes it to the limit. */
  predicate CutAt(limit: nat, es: seq<RunEntry>) {
    es != [] && SizeOf(es) >= limit && SizeOf(es[..|es| - 1]) < limit
  }

  /** Every block is cut at the limit; the last may fall short of it. */
  predicate CutBlocks(limit: nat, bs: Blocks) {
    && (forall i :: 0 <= i < |bs| - 1 ==> CutAt(limit, bs[i]))
    && (bs != [] ==> CutAt(limit, bs[|bs| - 1]) || SizeOf(bs[|bs| - 1]) < limit)
  }

  lemma LastBlockCut(limit: nat, bs: Blocks, es: seq<RunEntry>)
    requires (forall i :: 0 <= i < |bs| ==> CutAt(limit, bs[i])) && SizeOf(es) < limit
    ensures CutBlocks(limit, bs + if es == [] then [] else [es])
  {
    hide CutAt, SizeOf;
  }

  lemma SortedGrows(es: seq<RunEntry>, e: RunEntry)
    requires Sorted(es) && AboveLast(es, e.key)
    ensures Sorted(es + [e])
  {
    forall i | 0 <= i < |es|
      ensures Less(es[i].key, e.key)
    {
      if i < |es| - 1 {
        LessTransitive(es[i].key, es[|es| - 1].key, e.key);
      }
    }
  }

  /** Whether `key` may follow `es` in a run. */
  predicate AboveLast(es: seq<RunEntry>, key: Bytes) {
    es == [] || Less(es[|es| - 1].key, key)
  }

  lemma NotSortedAt(es: seq<RunEntry>, i: nat)
    requires i < |es| && !AboveLast(es[..i], es[i].key)
    ensures !Sorted(es)
  {
    hide Less;
    assert !Less(es[i - 1].key, es[i].key);
  }

  /** The index names the first key and the offset of each block. */
  ghost predicate IndexFollows(index: seq<IndexEntry>, bs: Blocks)
    requires NoneEmpty(bs)
  {
    && |index| == |bs|
    && forall i :: 0 <= i < |bs| ==> index[i] == IndexEntry(bs[i][0].key, Saturate(BlockStart(bs, i)))
  }

  lemma BlocksGrow(bs: Blocks, es: seq<RunEntry>)
    ensures BlocksBytes(bs + [es]) == BlocksBytes(bs) + DataBlock(es)
    ensures Concat(bs + [es]) == Concat(bs) + es
  {
    hide DataBlock;
    assert (bs + [es])[..|bs|] == bs;
  }

  lemma IndexGrows(bs: Blocks, es: seq<RunEntry>, index: seq<IndexEntry>)
    requires NoneEmpty(bs) && es != [] && IndexFollows(index, bs)
    ensures IndexFollows(index + [IndexEntry(es[0].key, Saturate(IndexStart(bs)))], bs + [es])
  {
    hide BlocksBytes;
    var bigger := bs + [es];
    assert bigger[..|bs|] == bs;
    assert forall i :: 0 <= i < |bs| ==> bigger[..i] == bs[..i];
  }

  lemma RunIsShort(bs: Blocks, index: seq<IndexEntry>)
    requires NoneEmpty(bs) && IndexFollows(index, bs) && Weight(Concat(bs)) + RUN_OVERHEAD < U64
    ensures F.HEADER_LEN + |BlocksBytes(bs)| + |IndexBlock(index)| + FOOTER_LEN <= Weight(Concat(bs)) + RUN_OVERHEAD
  {
    hide Varu, BlocksBytes, IndexBytes, Concat, Weight;
    BlocksWeigh(bs, index);
    VaruShort(|index|);
  }

  lemma IndexIsExact(index: seq<IndexEntry>, bs: Blocks)
    requires NoneEmpty(bs) && Short(bs) && IndexFollows(index, bs)
    ensures index == IndexFor(bs)
  {
    hide BlocksBytes;
    forall i | 0 <= i < |bs|
      ensures index[i] == IndexFor(bs)[i]
    {
      BlocksPrefix(bs, i);
    }
  }

  lemma WrittenIsRun(crc: Crc, created: u64, bs: Blocks, index: seq<IndexEntry>, at: u64, out: Bytes)
    requires SortedBlocks(bs) && IndexFollows(index, bs) && at == Saturate(IndexStart(bs)) && |out| < U64
    requires var body := HeaderFor(crc, created) + BlocksBytes(bs) + IndexBlock(index); out == body + Footer(at, crc(body))
    ensures IsRunWith(crc, out, Concat(bs), created, bs)
  {
    hide BlocksBytes, IndexBlock, Footer, Sorted, HeaderFor, IndexFollows;
    assert Short(bs);
    IndexIsExact(index, bs);
  }

  /******* How long a run file can be *******/

  /** A bound on what an entry adds to a run file: itself in its block and, if it comes first there, in the index. */
  function EntryWeight(e: RunEntry): nat {
    2 * |e.key| + |e.value| + 50
  }

  function Weight(es: seq<RunEntry>): nat {
    if es == [] then 0 else Weight(es[..|es| - 1]) + EntryWeight(es[|es| - 1])
  }

  const RUN_OVERHEAD: nat := 96

  lemma {:induction false} WeightAppend(xs: seq<RunEntry>, ys: seq<RunEntry>)
    ensures Weight(xs + ys) == Weight(xs) + Weight(ys)
    decreases |ys|
  {
    if ys == [] {
      assert xs + ys == xs;
    } else {
      var n := |ys| - 1;
      assert (xs + ys)[..|xs| + n] == xs + ys[..n];
      WeightAppend(xs, ys[..n]);
    }
  }

  /** Entries in a block take at most 20 bytes beside their keys and values. */
  function Loads(es: seq<RunEntry>): nat {
    if es == [] then 0 else |es[0].key| + |es[0].value| + 20 + Loads(es[1..])
  }

  lemma {:induction false} EntriesLength(es: seq<RunEntry>)
    requires Bounded(es)
    ensures |EntriesBytes(es)| <= Loads(es)
  {
    hide Varu;
    if es != [] {
      EntriesLength(es[1..]);
      VaruShort(|es[0].key|);
      VaruShort(|es[0].value|);
    }
  }

  lemma {:induction false} LoadsWeigh(es: seq<RunEntry>)
    ensures 30 * |es| + Loads(es) <= Weight(es) && (es != [] ==> 30 + |es[0].key| + Loads(es) <= Weight(es))
  {
    if es != [] {
      LoadsWeigh(es[1..]);
      WeightAppend([es[0]], es[1..]);
      assert [es[0]] + es[1..] == es;
      assert Weight([es[0]]) == EntryWeight(es[0]);
    }
  }

  lemma {:induction false} WeightBounds(es: seq<RunEntry>)
    ensures |es| <= Weight(es) && (Weight(es) < U64 ==> Bounded(es))
  {
    if es != [] {
      WeightBounds(es[..|es| - 1]);
      assert es == es[..|es| - 1] + [es[|es| - 1]];
    }
  }

  lemma {:induction false} IndexBytesAppend(index: seq<IndexEntry>, e: IndexEntry)
    ensures |IndexBytes(index + [e])| == |IndexBytes(index)| + |IndexEntryBytes(e)|
  {
    hide IndexEntryBytes;
    if index == [] {
      assert [e][1..] == [] && [] + [e] == [e];
    } else {
      IndexBytesAppend(index[1..], e);
      assert (index + [e])[1..] == index[1..] + [e];
    }
  }

  /** The blocks and the entries of their index weigh no more than their entries. */
  lemma {:induction false} BlocksWeigh(bs: Blocks, index: seq<IndexEntry>)
    requires NoneEmpty(bs) && |index| == |bs| && (forall i :: 0 <= i < |bs| ==> index[i].firstKey == bs[i][0].key)
    requires Weight(Concat(bs)) < U64
    ensures |BlocksBytes(bs)| + |IndexBytes(index)| <= Weight(Concat(bs)) && |bs| <= Weight(Concat(bs))
    decreases |bs|
  {
    hide DataBlock, IndexEntryBytes, IndexBytes, Weight;
    NoIndex(index);
    if bs != [] {
      var n := |bs| - 1;
      assert index == index[..n] + [index[n]];
      WeightAppend(Concat(bs[..n]), bs[n]);
      BlocksWeigh(bs[..n], index[..n]);
      BlockWeighs(bs[n], index[n]);
      IndexBytesAppend(index[..n], index[n]);
    }
  }

  lemma NoIndex(index: seq<IndexEntry>)
    ensures index == [] ==> IndexBytes(index) == []
  {
  }

  lemma BlockWeighs(es: seq<RunEntry>, e: IndexEntry)
    requires es != [] && Weight(es) < U64 && e.firstKey == es[0].key
    ensures 0 < |DataBlock(es)| + |IndexEntryBytes(e)| <= Weight(es)
  {
    hide Varu, EntriesBytes, Loads, Weight;
    WeightBounds(es);
    EntriesLength(es);
    LoadsWeigh(es);
    VaruShort(|es|);
    VaruShort(|es[0].key|);
  }

  class RunWriter {
    const crc: Crc
    const targetBlockSize: nat
    ghost const header: Bytes
    ghost var blocks: Blocks
    var file: Bytes
    var pendingEntries: seq<RunEntry>
    var pendingBytes: nat
    var index: seq<IndexEntry>
    var currentOffset: u64
    var lastKey: Option<Bytes>
    var finished: bool

    /** Everything appended so far. */
    ghost function Appended(): seq<RunEntry>
      reads this
    {
      Concat(blocks) + pendingEntries
    }

    /** The blocks written and the entries still pending make up a sorted list; the index follows the blocks. */
    ghost predicate Valid()
      reads this
    {
      && |header| == F.HEADER_LEN && NoneEmpty(blocks)
      && file == header + BlocksBytes(blocks) && currentOffset == Saturate(|file|)
      && IndexFollows(index, blocks)
      && Sorted(Appended())
      && lastKey == (if Appended() == [] then None else Some(Appended()[|Appended()| - 1].key))
      && pendingBytes == SizeOf(pendingEntries)
    }

    /** So far every block was cut at the limit, which the entries still pending do not reach. */
    ghost predicate Cut()
      reads this
    {
      && (forall i :: 0 <= i < |blocks| ==> CutAt(BlockLimit(targetBlockSize), blocks[i]))
      && SizeOf(pendingEntries) < BlockLimit(targetBlockSize)
    }

    lemma AppendedIsSorted()
      requires Valid()
      ensures Sorted(Appended())
    {
    }

    constructor Create(crc: Crc, targetBlockSize: nat, created: u64)
      ensures Valid() && Appended() == [] && !finished && Cut()
      ensures this.crc == crc && this.targetBlockSize == targetBlockSize && header == HeaderFor(crc, created)
    {
      this.crc, this.targetBlockSize := crc, targetBlockSize;
      var bytes := HeaderFor(crc, created);
      header := bytes;
      blocks, file := [], bytes;
      pendingEntries, pendingBytes, index := [], 0, [];
      currentOffset, lastKey, finished := F.HEADER_LEN, None, false;
    }

    /** Appends an entry; refuses a key that is not above the last one. Blocks are cut by size. */
    method Append(key: Bytes, value: Bytes) returns (r: Outcome<()>)
      requires Valid()
      modifies this
      ensures Valid() && finished == old(finished)
      ensures var refused := old(finished) || !AboveLast(old(Appended()), key);
        && (r.Ok? <==> !refused)
        && Appended() == if refused then old(Appended()) else old(Appended()) + [RunEntry(key, value)]
      ensures old(Cut()) ==> Cut()
    {
      hide BlocksBytes, Concat, Less, SizeOf;
      if finished {
        return Err(WriterFinished);
      }
      if lastKey.Some? && !Less(lastKey.value, key) {
        return Err(KeysNotStrictlyIncreasing);
      }
      var e := RunEntry(key, value);
      ghost var before := Appended();
      SortedGrows(before, e);
      pendingBytes := pendingBytes + EntrySizeEstimate(e);
      pendingEntries := pendingEntries + [e];
      lastKey := Some(key);
      assert Appended() == before + [e];
      SizeGrows(old(pendingEntries), e);
      assert pendingEntries[..|pendingEntries| - 1] == old(pendingEntries);
      NoSize();
      if pendingBytes >= (if targetBlockSize > 256 then targetBlockSize else 256) {
        FlushPendingBlock();
      }
      return Ok(());
    }

    method FlushPendingBlock()
      requires Valid()
      modifies this
      ensures Valid() && finished == old(finished)
      ensures Appended() == old(Appended()) && pendingEntries == []
      ensures blocks == old(blocks) + if old(pendingEntries) == [] then [] else [old(pendingEntries)]
    {
      hide DataBlock, Sorted, BlocksBytes, Concat, IndexFollows, SizeOf;
      NoSize();
      if pendingEntries == [] {
        assert blocks + [] == blocks;
        return;
      }
      ghost var before, all, prefix := blocks, Appended(), BlocksBytes(blocks);
      var payload := DataBlock(pendingEntries);
      IndexGrows(before, pendingEntries, index);
      BlocksGrow(before, pendingEntries);
      assert file == header + prefix;
      file := file + payload;
      assert file == header + (prefix + payload);
      index := index + [IndexEntry(pendingEntries[0].key, currentOffset)];
      currentOffset := Saturate(currentOffset + |payload|);
      blocks := before + [pendingEntries];
      pendingEntries, pendingBytes := [], 0;
      assert Concat(blocks) == all;
      assert Appended() == all;
    }

    /** Writes the last block, the index and the footer. The file is then a run of exactly the entries appended. */
    method Finish(ghost created: u64) returns (r: Outcome<Bytes>)
      requires Valid() && header == HeaderFor(crc, created)
      modifies this
      ensures r.Err? <==> old(finished)
      ensures r.Ok? && |r.value| < U64 ==> IsRunOf(crc, r.value, old(Appended()))
      ensures r.Ok? && |r.value| < U64 ==> IsRunWith(crc, r.value, old(Appended()), created, blocks)
      ensures old(Cut()) && r.Ok? ==> CutBlocks(BlockLimit(targetBlockSize), blocks)
      ensures r.Ok? && Weight(old(Appended())) + RUN_OVERHEAD < U64 ==> |r.value| < U64
    {
      hide DataBlock, IndexBlock, Footer, HeaderFor, IsRunWith, Weight, SizeOf, CutAt, CutBlocks;
      if finished {
        return Err(WriterFinished);
      }
      if Cut() {
        LastBlockCut(BlockLimit(targetBlockSize), blocks, pendingEntries);
      }
      FlushPendingBlock();
      assert Appended() == Concat(blocks);
      var body := file + IndexBlock(index);
      var out := body + Footer(currentOffset, crc(body));
      finished := true;
      if Weight(Appended()) + RUN_OVERHEAD < U64 {
        RunIsShort(blocks, index);
        assert |out| == F.HEADER_LEN + |BlocksBytes(blocks)| + |IndexBlock(index)| + FOOTER_LEN;
      }
      if |out| < U64 {
        WrittenIsRun(crc, created, blocks, index, currentOffset, out);
      }
      return Ok(out);
    }
  }

  /** A strictly increasing list written entry by entry becomes a run of exactly that list, at any block size. */
  method WriteRun(crc: Crc, es: seq<RunEntry>, targetBlockSize: nat, created: u64) returns (r: Outcome<Bytes>)
    ensures r.Ok? <==> Sorted(es)
    ensures r.Ok? && |r.value| < U64 ==> IsRunOf(crc, r.value, es)
    ensures r.Ok? && |r.value| < U64 ==>
      exists bs :: IsRunWith(crc, r.value, es, created, bs) && CutBlocks(BlockLimit(targetBlockSize), bs)
    ensures r.Ok? && Weight(es) + RUN_OVERHEAD < U64 ==> |r.value| < U64
  {
    hide CutBlocks, RunWriter.Cut, IsRunWith, Less, Sorted, Weight, IsRunOf, HeaderFor, RunWriter.Valid, RunWriter.Appended;
    var w := new RunWriter.Create(crc, targetBlockSize, created);
    for i := 0 to |es|
      invariant fresh(w) && w.Valid() && w.Cut() && !w.finished && w.crc == crc && w.header == HeaderFor(crc, created)
      invariant w.Appended() == es[..i]
    {
      assert es[..i + 1] == es[..i] + [es[i]];
      var appended := w.Append(es[i].key, es[i].value);
      if appended.Err? {
        NotSortedAt(es, i);
        return Err(appended.error);
      }
    }
    assert es[..|es|] == es;
    w.AppendedIsSorted();
    var out := w.Finish(created);
    return Ok(out.value);
  }
}

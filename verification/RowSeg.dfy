/** Row segments: append-only files of row versions, addressed by the offset of their frame. */
module RowSeg {
  import opened Wrappers
  import opened Codec
  import F = FileHeader

  type Id16 = s: Bytes | |s| == 16 witness seq(16, _ => 0)

  /** A frame's position; `NO_PTR` is the "no previous version" marker. */
  datatype FilePtr = FilePtr(fileId: u32, offset: u64)

  const NO_PTR := FilePtr(0, 0)
  const PTR_LEN: nat := 12

  datatype RowGroupRef = Inline(bytes: Bytes) | ValueRef(id: Id16)

  datatype RowGroup = RowGroup(groupId: u64, data: RowGroupRef)

  datatype RowVersion = RowVersion(
    flags: u16, tableId: u32, rowId: u64, beginTs: u64, endTs: u64, prevPtr: FilePtr, groups: seq<RowGroup>)

  /** Bit 0 of the flags. */
  predicate IsDelete(row: RowVersion) {
    row.flags % 2 == 1
  }

  /******* Codec *******/

  const RECORD_TYPE: byte := 0x10
  const RECORD_VERSION: byte := 1
  const FIXED_LEN: nat := 44

  function PtrBytes(p: FilePtr): (b: Bytes)
    ensures |b| == PTR_LEN
  {
    Le(p.fileId, 4) + Le(p.offset, 8)
  }

  function PtrFrom(b: Bytes): FilePtr
    requires |b| == PTR_LEN
  {
    Pow256Values();
    FilePtr(LeAt(b, 0, 4), LeAt(b, 4, 8))
  }

  lemma PtrRoundTrip(p: FilePtr)
    ensures PtrFrom(PtrBytes(p)) == p
  {
    hide Le, FromLe;
    Pow256Values();
    var id, off := Le(p.fileId, 4), Le(p.offset, 8);
    assert (id + off)[0..4] == id && (id + off)[4..12] == off;
    LeRoundTrip(p.fileId, 4);
    LeRoundTrip(p.offset, 8);
  }

  function FixedFields(row: RowVersion): (b: Bytes)
    ensures |b| == FIXED_LEN
  {
    [RECORD_TYPE, RECORD_VERSION] + Le(row.flags, 2) + Le(row.tableId, 4) + Le(row.rowId, 8)
    + Le(row.beginTs, 8) + Le(row.endTs, 8) + PtrBytes(row.prevPtr)
  }

  function RefBytes(d: RowGroupRef): Bytes {
    match d
    case Inline(bytes) => [0] + Varu(|bytes|) + bytes
    case ValueRef(id) => [1] + id
  }

  function GroupBytes(g: RowGroup): (b: Bytes)
    ensures |b| >= 1
  {
    Varu(g.groupId) + RefBytes(g.data)
  }

  function GroupsBytes(gs: seq<RowGroup>): (b: Bytes)
    ensures |b| >= |gs|
  {
    if gs == [] then [] else GroupBytes(gs[0]) + GroupsBytes(gs[1..])
  }

  function EncodeRow(row: RowVersion): Bytes {
    FixedFields(row) + Varu(|row.groups|) + GroupsBytes(row.groups)
  }

  function DecodeRef(cursor: Bytes): Outcome<(RowGroupRef, Bytes)> {
    if cursor == [] then Err(InvalidRecord)
    else if cursor[0] == 0 then
      var (len, rest) :- DecodeVaru(cursor[1..]);
      if |rest| < len then Err(InvalidRecord) else Ok((Inline(rest[..len]), rest[len..]))
    else if cursor[0] == 1 then
      if |cursor[1..]| < 16 then Err(InvalidRecord) else Ok((ValueRef(cursor[1..17]), cursor[17..]))
    else Err(InvalidGroupRefKind)
  }

  function DecodeGroup(cursor: Bytes): Outcome<(RowGroup, Bytes)> {
    var (id, rest) :- DecodeVaru(cursor);
    var (data, rest') :- DecodeRef(rest);
    Ok((RowGroup(id, data), rest'))
  }

  function DecodeGroups(cursor: Bytes, count: nat, groups: seq<RowGroup>): Outcome<(seq<RowGroup>, Bytes)>
    decreases count
  {
    if count == 0 then Ok((groups, cursor))
    else
      var (g, rest) :- DecodeGroup(cursor);
      DecodeGroups(rest, count - 1, groups + [g])
  }

  function FixedFrom(p: Bytes, groups: seq<RowGroup>): RowVersion
    requires |p| >= FIXED_LEN
  {
    Pow256Values();
    RowVersion(LeAt(p, 2, 2), LeAt(p, 4, 4), LeAt(p, 8, 8), LeAt(p, 16, 8), LeAt(p, 24, 8), PtrFrom(p[32..44]), groups)
  }

  function DecodeRow(p: Bytes): Outcome<RowVersion> {
    if |p| < 2 then Err(InvalidRecord)
    else if p[0] != RECORD_TYPE then Err(InvalidRecordType)
    else if p[1] != RECORD_VERSION then Err(UnsupportedRecordVersion)
    else if |p| < FIXED_LEN then Err(InvalidRecord)
    else
      var (count, rest) :- DecodeVaru(p[FIXED_LEN..]);
      if count >= U32 then Err(InvalidRecord)
      else
        var (groups, rest') :- DecodeGroups(rest, count, []);
        if rest' != [] then Err(TrailingBytes) else Ok(FixedFrom(p, groups))
  }

  method DecodeRowBytes(p: Bytes) returns (r: Outcome<RowVersion>)
    ensures r == DecodeRow(p)
  {
    hide DecodeVaru, DecodeGroup, FixedFrom;
    if |p| < 2 {
      return Err(InvalidRecord);
    }
    if p[0] != RECORD_TYPE {
      return Err(InvalidRecordType);
    }
    if p[1] != RECORD_VERSION {
      return Err(UnsupportedRecordVersion);
    }
    if |p| < FIXED_LEN {
      return Err(InvalidRecord);
    }
    var count :- DecodeVaru(p[FIXED_LEN..]);
    if count.0 >= U32 {
      return Err(InvalidRecord);
    }
    var cursor, groups := count.1, [];
    for i := 0 to count.0
      invariant DecodeGroups(count.1, count.0, []) == DecodeGroups(cursor, count.0 - i, groups)
    {
      var g :- DecodeGroup(cursor);
      groups, cursor := groups + [g.0], g.1;
    }
    if cursor != [] {
      return Err(TrailingBytes);
    }
    return Ok(FixedFrom(p, groups));
  }

  predicate GroupFits(g: RowGroup) {
    g.data.Inline? ==> |g.data.bytes| < U64
  }

  lemma InlineRoundTrip(bytes: Bytes, rest: Bytes)
    requires |bytes| < U64
    ensures DecodeRef(RefBytes(Inline(bytes)) + rest) == Ok((Inline(bytes), rest))
  {
    var cursor := RefBytes(Inline(bytes)) + rest;
    assert cursor[1..] == Varu(|bytes|) + (bytes + rest);
    VaruRoundTrip(|bytes|, bytes + rest);
    assert (bytes + rest)[..|bytes|] == bytes && (bytes + rest)[|bytes|..] == rest;
  }

  lemma GroupRoundTrip(g: RowGroup, rest: Bytes)
    requires GroupFits(g)
    ensures DecodeGroup(GroupBytes(g) + rest) == Ok((g, rest))
  {
    hide DecodeVaru, Varu;
    assert GroupBytes(g) + rest == Varu(g.groupId) + (RefBytes(g.data) + rest);
    VaruRoundTrip(g.groupId, RefBytes(g.data) + rest);
    if g.data.Inline? {
      InlineRoundTrip(g.data.bytes, rest);
    } else {
      var cursor := RefBytes(g.data) + rest;
      assert cursor[1..17] == g.data.id && cursor[17..] == rest;
    }
  }

  lemma {:induction false} GroupsRoundTrip(gs: seq<RowGroup>, found: seq<RowGroup>, more: Bytes)
    requires forall i :: 0 <= i < |gs| ==> GroupFits(gs[i])
    ensures DecodeGroups(GroupsBytes(gs) + more, |gs|, found) == Ok((found + gs, more))
    decreases |gs|
  {
    hide DecodeGroup, GroupBytes;
    if gs == [] {
      assert found + gs == found && GroupsBytes(gs) + more == more;
    } else {
      var rest := GroupsBytes(gs[1..]) + more;
      assert GroupsBytes(gs) + more == GroupBytes(gs[0]) + rest;
      GroupRoundTrip(gs[0], rest);
      GroupsRoundTrip(gs[1..], found + [gs[0]], more);
      assert (found + [gs[0]]) + gs[1..] == found + gs;
    }
  }

  lemma FixedRoundTrip(row: RowVersion, rest: Bytes)
    ensures var p := FixedFields(row) + rest;
      && p[0] == RECORD_TYPE && p[1] == RECORD_VERSION && p[FIXED_LEN..] == rest
      && FixedFrom(p, row.groups) == row
  {
    hide Le, FromLe, PtrBytes, PtrFrom;
    Pow256Values();
    var p := FixedFields(row) + rest;
    var flags, table, id := Le(row.flags, 2), Le(row.tableId, 4), Le(row.rowId, 8);
    var begin, end := Le(row.beginTs, 8), Le(row.endTs, 8);
    assert p[2..4] == flags && p[4..8] == table && p[8..16] == id && p[16..24] == begin && p[24..32] == end;
    assert p[32..44] == PtrBytes(row.prevPtr);
    LeRoundTrip(row.flags, 2);
    LeRoundTrip(row.tableId, 4);
    LeRoundTrip(row.rowId, 8);
    LeRoundTrip(row.beginTs, 8);
    LeRoundTrip(row.endTs, 8);
    PtrRoundTrip(row.prevPtr);
  }

  lemma PtrIff(b: Bytes, p: FilePtr)
    requires |b| == PTR_LEN
    ensures PtrFrom(b) == p <==> b == PtrBytes(p)
  {
    hide Le, FromLe;
    Pow256Values();
    if PtrFrom(b) == p {
      LeOfFromLe(b[0..4]);
      LeOfFromLe(b[4..12]);
      assert b == b[0..4] + b[4..12];
    } else if b == PtrBytes(p) {
      PtrRoundTrip(p);
    }
  }

  /** The fixed part of a row that is accepted is that of its encoding. */
  lemma DecodedFields(p: Bytes)
    requires DecodeRow(p).Ok?
    ensures |p| >= FIXED_LEN && p[..FIXED_LEN] == FixedFields(DecodeRow(p).value)
  {
    hide Le, FromLe, DecodeGroups, DecodeVaru, PtrBytes, PtrFrom;
    Pow256Values();
    var row := DecodeRow(p).value;
    LeOfFromLe(p[2..4]);
    LeOfFromLe(p[4..8]);
    LeOfFromLe(p[8..16]);
    LeOfFromLe(p[16..24]);
    LeOfFromLe(p[24..32]);
    PtrIff(p[32..44], row.prevPtr);
    assert p[..FIXED_LEN] == [p[0], p[1]] + p[2..4] + p[4..8] + p[8..16] + p[16..24] + p[24..32] + p[32..44];
  }

  /** A reference is inline bytes behind their length, or sixteen bytes of an id; any other kind is refused. */
  lemma OtherRefsRefused(kind: byte, rest: Bytes)
    requires kind > 1
    ensures DecodeRef([kind] + rest) == Err(InvalidGroupRefKind)
  {
  }

  /** A row on disk, with an inline group and a reference. */
  lemma RowOnDisk(id: Id16)
    ensures EncodeRow(RowVersion(0x0101, 2, 3, 4, 5, FilePtr(6, 7), [RowGroup(8, Inline([9])), RowGroup(1, ValueRef(id))]))
      == [0x10, 1] + [1, 1] + Small(2, 4) + Small(3, 8) + Small(4, 8) + Small(5, 8) + (Small(6, 4) + Small(7, 8)) + [2]
         + ([8] + ([0] + [1] + [9]) + ([1] + ([1] + id)))
  {
    hide Le, Small;
    SmallLe(2, 4);
    SmallLe(6, 4);
    SmallLe(3, 8);
    SmallLe(4, 8);
    SmallLe(5, 8);
    SmallLe(7, 8);
    TwoBytes();
    var a, b := RowGroup(8, Inline([9])), RowGroup(1, ValueRef(id));
    assert [a, b][1..] == [b] && [b][1..] == [];
    assert GroupsBytes([b]) == GroupBytes(b) by {
      assert GroupsBytes([b]) == GroupBytes(b) + GroupsBytes([b][1..]);
    }
    assert GroupsBytes([a, b]) == GroupBytes(a) + GroupsBytes([a, b][1..]);
  }

  /** A small number as `k` little-endian bytes. */
  function Small(n: byte, k: nat): Bytes
    requires k > 0
  {
    [n] + seq(k - 1, _ => 0)
  }

  lemma TwoBytes()
    ensures Le(0x0101, 2) == [1, 1]
  {
    assert Le(1, 1) == [1];
  }

  lemma {:induction false} Zeros(k: nat)
    ensures Le(0, k) == seq(k, _ => 0)
  {
    if k > 0 {
      Zeros(k - 1);
    }
  }

  lemma SmallLe(n: byte, k: nat)
    requires k > 0
    ensures Le(n, k) == Small(n, k)
  {
    Zeros(k - 1);
  }

  /** An encoded row decodes to itself exactly when it has fewer than 2^32 groups. */
  lemma RowRoundTrip(row: RowVersion)
    requires |row.groups| < U64 && forall i :: 0 <= i < |row.groups| ==> GroupFits(row.groups[i])
    ensures DecodeRow(EncodeRow(row)) == if |row.groups| < U32 then Ok(row) else Err(InvalidRecord)
  {
    RowAndMore(row, []);
    assert EncodeRow(row) + [] == EncodeRow(row);
  }

  /** Bytes after a row are refused. */
  lemma RowAndMore(row: RowVersion, more: Bytes)
    requires |row.groups| < U64 && forall i :: 0 <= i < |row.groups| ==> GroupFits(row.groups[i])
    ensures DecodeRow(EncodeRow(row) + more) ==
      if |row.groups| >= U32 then Err(InvalidRecord) else if more != [] then Err(TrailingBytes) else Ok(row)
  {
    hide FixedFields, FixedFrom, DecodeVaru, DecodeGroups, GroupsBytes, Varu;
    var rest := Varu(|row.groups|) + (GroupsBytes(row.groups) + more);
    assert EncodeRow(row) + more == FixedFields(row) + rest;
    FixedRoundTrip(row, rest);
    VaruRoundTrip(|row.groups|, GroupsBytes(row.groups) + more);
    GroupsRoundTrip(row.groups, [], more);
    assert [] + row.groups == row.groups;
  }

  /******* Writing and reading segments *******/

  /** No frame is read beyond this many bytes. */
  const READ_CAP: nat := 16 * 1024 * 1024

  /** The row can be appended: it fits a frame. */
  predicate Appendable(row: RowVersion) {
    |EncodeRow(row)| < U32
  }

  lemma AppendableRoundTrip(row: RowVersion)
    requires Appendable(row)
    ensures DecodeRow(EncodeRow(row)) == Ok(row)
  {
    hide FixedFields, Varu, DecodeRow;
    forall i | 0 <= i < |row.groups|
      ensures GroupFits(row.groups[i])
    {
      GroupWithin(row.groups, i);
    }
    RowRoundTrip(row);
  }

  lemma {:induction false} GroupWithin(gs: seq<RowGroup>, i: nat)
    requires i < |gs|
    ensures gs[i].data.Inline? ==> |gs[i].data.bytes| <= |GroupsBytes(gs)|
    decreases |gs|
  {
    if i > 0 {
      GroupWithin(gs[1..], i - 1);
    }
  }

  function RowFrame(crc: Crc, row: RowVersion): (b: Bytes)
    ensures |b| > FRAME_HEADER_LEN
  {
    Frame(crc, EncodeRow(row))
  }

  function RowsBytes(crc: Crc, rows: seq<RowVersion>): Bytes {
    if rows == [] then [] else RowsBytes(crc, rows[..|rows| - 1]) + RowFrame(crc, rows[|rows| - 1])
  }

  /** The offset of the frame of `rows[i]`. */
  function OffsetOf(crc: Crc, rows: seq<RowVersion>, i: nat): nat
    requires i <= |rows|
  {
    F.HEADER_LEN + |RowsBytes(crc, rows[..i])|
  }

  /** Decodes the frame at `offset`, reading at most `READ_CAP` bytes; also where the next frame starts. */
  function ReadFrameAt(crc: Crc, file: Bytes, offset: nat): Outcome<(RowVersion, nat)>
    requires offset <= |file|
  {
    var remaining := |file| - offset;
    if remaining < 8 then Err(InvalidRecord)
    else
      var buf := file[offset..offset + if remaining < READ_CAP then remaining else READ_CAP];
      var (payload, rest) :- DecodeFrame(crc, buf);
      var row :- DecodeRow(payload);
      Ok((row, offset + |buf| - |rest|))
  }

  function ReadAt(crc: Crc, file: Bytes, offset: nat): Outcome<RowVersion> {
    if offset < F.HEADER_LEN || offset >= |file| then Err(InvalidRecord)
    else
      var (row, _) :- ReadFrameAt(crc, file, offset);
      Ok(row)
  }

  /** The bytes of a frame behind others, cut to what one read sees. */
  lemma FrameInFile(crc: Crc, file: Bytes, offset: nat, row: RowVersion, rest: Bytes)
    requires Appendable(row) && offset <= |file| && file[offset..] == RowFrame(crc, row) + rest
    ensures ReadFrameAt(crc, file, offset) ==
      if |RowFrame(crc, row)| <= READ_CAP then Ok((row, offset + |RowFrame(crc, row)|)) else Err(FormatEof)
  {
    hide EncodeRow, DecodeRow, Frame, DecodeFrame;
    var frame := RowFrame(crc, row);
    var remaining := |file| - offset;
    var n := if remaining < READ_CAP then remaining else READ_CAP;
    var buf := file[offset..offset + n];
    assert buf == (frame + rest)[..n];
    if |frame| <= READ_CAP {
      assert buf == frame + rest[..n - |frame|];
      FrameRoundTrip(crc, EncodeRow(row), rest[..n - |frame|]);
      AppendableRoundTrip(row);
    } else {
      assert buf == frame[..n];
      CutFrameFails(crc, EncodeRow(row), n);
    }
  }

  lemma {:induction false} RowsSplit(crc: Crc, rows: seq<RowVersion>, i: nat)
    requires i < |rows|
    ensures |RowsBytes(crc, rows[..i])| < |RowsBytes(crc, rows)|
    ensures exists rest ::
      RowsBytes(crc, rows)[|RowsBytes(crc, rows[..i])|..] == RowFrame(crc, rows[i]) + rest
    decreases |rows|
  {
    hide RowFrame;
    var n := |rows| - 1;
    var before, last := RowsBytes(crc, rows[..n]), RowFrame(crc, rows[n]);
    assert RowsBytes(crc, rows) == before + last;
    if i == n {
      assert (before + last)[|before|..] == last + [];
    } else {
      RowsSplit(crc, rows[..n], i);
      assert rows[..n][..i] == rows[..i];
      var k := |RowsBytes(crc, rows[..i])|;
      var rest :| before[k..] == RowFrame(crc, rows[i]) + rest;
      assert (before + last)[k..] == before[k..] + last;
      assert (before + last)[k..] == RowFrame(crc, rows[i]) + (rest + last);
    }
  }

  predicate AllAppendable(rows: seq<RowVersion>) {
    forall i :: 0 <= i < |rows| ==> Appendable(rows[i])
  }

  lemma ReadFrameBack(crc: Crc, header: Bytes, rows: seq<RowVersion>, i: nat)
    requires |header| == F.HEADER_LEN && i < |rows| && AllAppendable(rows)
    ensures OffsetOf(crc, rows, i) < |header + RowsBytes(crc, rows)|
    ensures ReadFrameAt(crc, header + RowsBytes(crc, rows), OffsetOf(crc, rows, i))
      == if |RowFrame(crc, rows[i])| <= READ_CAP then Ok((rows[i], OffsetOf(crc, rows, i + 1))) else Err(FormatEof)
  {
    hide RowFrame, ReadFrameAt, Appendable;
    RowsSplit(crc, rows, i);
    assert rows[..i + 1][..i] == rows[..i];
    var body := RowsBytes(crc, rows);
    var k := |RowsBytes(crc, rows[..i])|;
    var rest :| body[k..] == RowFrame(crc, rows[i]) + rest;
    assert (header + body)[F.HEADER_LEN + k..] == body[k..];
    FrameInFile(crc, header + body, F.HEADER_LEN + k, rows[i], rest);
  }

  /** The pointer an append returned reads back the very row, for as long as the file grows; only a frame larger than
      the read cap cannot be read. */
  lemma ReadBack(crc: Crc, header: Bytes, rows: seq<RowVersion>, i: nat)
    requires |header| == F.HEADER_LEN && i < |rows| && AllAppendable(rows)
    ensures ReadAt(crc, header + RowsBytes(crc, rows), OffsetOf(crc, rows, i))
      == if |RowFrame(crc, rows[i])| <= READ_CAP then Ok(rows[i]) else Err(FormatEof)
  {
    hide RowFrame, ReadFrameAt, RowsBytes, Appendable;
    ReadFrameBack(crc, header, rows, i);
  }

  /** A row of 2^32 empty groups encodes to bytes that are refused. */
  lemma TooManyGroups()
    ensures var row := RowVersion(0, 3, 42, 100, 0, NO_PTR, seq(U32, _ => RowGroup(0, Inline([]))));
      DecodeRow(EncodeRow(row)) == Err(InvalidRecord)
  {
    hide *;
    RowOfEmptyGroups();
    RowRoundTrip(RowVersion(0, 3, 42, 100, 0, NO_PTR, seq(U32, _ => RowGroup(0, Inline([])))));
  }

  lemma RowOfEmptyGroups()
    ensures var groups := seq(U32, _ => RowGroup(0, Inline([])));
      U32 < U64 && forall i :: 0 <= i < |groups| ==> GroupFits(groups[i])
  {
  }

  /** A row of one inline group of 16 MiB: it is appended, and cannot be read at the pointer returned. */
  lemma OversizeRowUnreadable(crc: Crc, header: Bytes)
    requires |header| == F.HEADER_LEN
    ensures var row := RowVersion(0, 3, 42, 100, 0, NO_PTR, [RowGroup(0, Inline(seq(0x100_0000, _ => 0)))]);
      && Appendable(row) && |RowFrame(crc, row)| > 16 * 1024 * 1024
      && ReadAt(crc, header + RowsBytes(crc, [row]), OffsetOf(crc, [row], 0)) == Err(FormatEof)
  {
    hide RowFrame, ReadFrameAt, Varu;
    var group := RowGroup(0, Inline(seq(0x100_0000, _ => 0)));
    var row := RowVersion(0, 3, 42, 100, 0, NO_PTR, [group]);
    assert [group][1..] == [];
    assert GroupsBytes([group]) == GroupBytes(group) + GroupsBytes([group][1..]);
    VaruShort(0);
    VaruShort(0x100_0000);
    VaruShort(1);
    FrameLength(crc, row);
    ReadBack(crc, header, [row], 0);
  }

  lemma FrameLength(crc: Crc, row: RowVersion)
    requires Appendable(row)
    ensures |RowFrame(crc, row)| == FRAME_HEADER_LEN + |EncodeRow(row)|
  {
  }

  datatype Located = Located(offset: nat, row: RowVersion)

  function ReadAllFrom(crc: Crc, file: Bytes, offset: nat, found: seq<Located>): Outcome<seq<Located>>
    requires offset <= |file|
    decreases |file| - offset
  {
    if offset >= |file| then Ok(found)
    else
      var (row, next) :- ReadFrameAt(crc, file, offset);
      ReadAdvances(crc, file, offset);
      ReadAllFrom(crc, file, next, found + [Located(offset, row)])
  }

  /** The rows of a segment with their offsets. */
  function LocatedRows(crc: Crc, rows: seq<RowVersion>): seq<Located> {
    seq(|rows|, i requires 0 <= i < |rows| => Located(OffsetOf(crc, rows, i), rows[i]))
  }

  /** Reading a segment sequentially yields every appended row, in order, at the offset its append returned. */
  lemma {:induction false} ReadAllRows(crc: Crc, header: Bytes, rows: seq<RowVersion>, i: nat)
    requires |header| == F.HEADER_LEN && i <= |rows| && AllAppendable(rows)
    requires forall j :: 0 <= j < |rows| ==> |RowFrame(crc, rows[j])| <= READ_CAP
    ensures var file := header + RowsBytes(crc, rows);
      && OffsetOf(crc, rows, i) <= |file|
      && ReadAllFrom(crc, file, OffsetOf(crc, rows, i), LocatedRows(crc, rows)[..i]) == Ok(LocatedRows(crc, rows))
    decreases |rows| - i
  {
    hide RowFrame, ReadFrameAt, RowsBytes, Appendable;
    var located := LocatedRows(crc, rows);
    if i == |rows| {
      assert rows[..i] == rows && located[..i] == located;
    } else {
      ReadFrameBack(crc, header, rows, i);
      ReadAllRows(crc, header, rows, i + 1);
      assert located[..i] + [located[i]] == located[..i + 1];
    }
  }

  lemma ReadAdvances(crc: Crc, file: Bytes, offset: nat)
    requires offset <= |file| && ReadFrameAt(crc, file, offset).Ok?
    ensures offset < ReadFrameAt(crc, file, offset).value.1 <= |file|
  {
  }

  class RowSegmentWriter {
    const crc: Crc
    const fileId: u32
    var file: Bytes
    var cursorOffset: nat

    ghost predicate Valid()
      reads this
    {
      cursorOffset == |file| && |file| >= F.HEADER_LEN
    }

    constructor Create(crc: Crc, fileId: u32, created: u64)
      ensures Valid() && this.crc == crc && this.fileId == fileId
      ensures file == F.Encode(crc, F.Header(F.RowSegFile, fileId, created, seq(32, _ => 0)))
    {
      this.crc, this.fileId := crc, fileId;
      file := F.Encode(crc, F.Header(F.RowSegFile, fileId, created, seq(32, _ => 0)));
      cursorOffset := F.HEADER_LEN;
    }

    /** Appends a row and returns where its frame starts. */
    method Append(row: RowVersion) returns (r: Outcome<FilePtr>)
      requires Valid() && |file| < U64
      modifies this`file, this`cursorOffset
      ensures Valid()
      ensures if Appendable(row)
              then r == Ok(FilePtr(fileId, old(|file|))) && file == old(file) + RowFrame(crc, row)
              else r == Err(FrameTooLarge) && unchanged(this)
    {
      hide EncodeRow, Frame;
      var frame := EncodeFrame(crc, EncodeRow(row));
      if frame.Err? {
        return Err(frame.error);
      }
      var offset := cursorOffset;
      file := file + frame.value;
      cursorOffset := offset + |frame.value|;
      return Ok(FilePtr(fileId, offset));
    }
  }

  /** Reads a segment from its first frame to its end. */
  method ReadAll(crc: Crc, file: Bytes) returns (r: Outcome<seq<Located>>)
    requires |file| >= F.HEADER_LEN
    ensures r == ReadAllFrom(crc, file, F.HEADER_LEN, [])
  {
    hide ReadFrameAt;
    var offset, found := F.HEADER_LEN, [];
    while offset < |file|
      invariant offset <= |file|
      invariant ReadAllFrom(crc, file, F.HEADER_LEN, []) == ReadAllFrom(crc, file, offset, found)
      decreases |file| - offset
    {
      var step := ReadFrameAt(crc, file, offset);
      if step.Err? {
        return Err(step.error);
      }
      ReadAdvances(crc, file, offset);
      found := found + [Located(offset, step.value.0)];
      offset := step.value.1;
    }
    return Ok(found);
  }
}

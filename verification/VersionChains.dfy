/** Version chains end to end: rows written to a segment, linked by the pointers the writes returned, and walked back. */
module VersionChains {
  import opened Wrappers
  import opened Codec
  import opened RowSeg
  import opened Mvcc
  import F = FileHeader

  /** The pointer the append of `rows[i]` returned. */
  function PtrOf(crc: Crc, fileId: u32, rows: seq<RowVersion>, i: nat): FilePtr
    requires i <= |rows| && F.HEADER_LEN + |RowsBytes(crc, rows)| < U64
  {
    RowsShorter(crc, rows, i);
    FilePtr(fileId, OffsetOf(crc, rows, i))
  }

  lemma {:induction false} RowsShorter(crc: Crc, rows: seq<RowVersion>, i: nat)
    requires i <= |rows|
    ensures |RowsBytes(crc, rows[..i])| <= |RowsBytes(crc, rows)|
    decreases |rows|
  {
    hide RowFrame;
    if i < |rows| {
      RowsSplit(crc, rows, i);
    } else {
      assert rows[..i] == rows;
    }
  }

  /** Every row names as its previous version none, or one written before it. */
  ghost predicate LinkedBackwards(crc: Crc, fileId: u32, rows: seq<RowVersion>)
    requires F.HEADER_LEN + |RowsBytes(crc, rows)| < U64
  {
    forall i :: 0 <= i < |rows| && rows[i].prevPtr != NO_PTR ==>
      exists j :: 0 <= j < i && rows[i].prevPtr == PtrOf(crc, fileId, rows, j)
  }

  /** The rows with the pointers their appends returned. */
  function Appends(crc: Crc, fileId: u32, rows: seq<RowVersion>): seq<(FilePtr, RowVersion)>
    requires F.HEADER_LEN + |RowsBytes(crc, rows)| < U64
  {
    seq(|rows|, i requires 0 <= i < |rows| => (PtrOf(crc, fileId, rows, i), rows[i]))
  }

  lemma OffsetsIncrease(crc: Crc, rows: seq<RowVersion>, i: nat, j: nat)
    requires i < j <= |rows|
    ensures OffsetOf(crc, rows, i) < OffsetOf(crc, rows, j)
  {
    hide RowFrame;
    RowsSplit(crc, rows[..j], i);
    assert rows[..j][..i] == rows[..i];
  }

  lemma SegmentIsAppendOrder(crc: Crc, fileId: u32, rows: seq<RowVersion>)
    requires F.HEADER_LEN + |RowsBytes(crc, rows)| < U64 && LinkedBackwards(crc, fileId, rows)
    ensures AppendOrder(Appends(crc, fileId, rows))
  {
    hide RowsBytes;
    var appended := Appends(crc, fileId, rows);
    forall i, j | 0 <= i < j < |appended|
      ensures appended[i].0 != appended[j].0
    {
      OffsetsIncrease(crc, rows, i, j);
    }
    forall i | 0 <= i < |appended| && appended[i].1.prevPtr != NO_PTR
      ensures exists j :: 0 <= j < i && appended[j].0 == appended[i].1.prevPtr
    {
      var j :| 0 <= j < i && rows[i].prevPtr == PtrOf(crc, fileId, rows, j);
      assert appended[j].0 == appended[i].1.prevPtr;
    }
  }

  /** `vs` is what reading the segment file at the pointers in `vs` gives. */
  ghost predicate LoadedFrom(vs: Versions, crc: Crc, fileId: u32, file: Bytes) {
    forall p :: p in vs ==> p.fileId == fileId && ReadAt(crc, file, p.offset) == Ok(vs[p])
  }

  /** Rows written to one segment, each linked to an earlier one, can be walked from any of them: the chain has no cycle
      and no missing pointer, its versions are the rows written, and the walk fails only on an id mismatch. */
  lemma WrittenChainsWalk(crc: Crc, header: Bytes, fileId: u32, rows: seq<RowVersion>, vs: Versions, i: nat, x: Ids,
                          s: Snapshot)
    requires |header| == F.HEADER_LEN && i < |rows| && AllAppendable(rows)
    requires forall j :: 0 <= j < |rows| ==> |RowFrame(crc, rows[j])| <= READ_CAP
    requires F.HEADER_LEN + |RowsBytes(crc, rows)| < U64 && LinkedBackwards(crc, fileId, rows)
    requires LoadedFrom(vs, crc, fileId, header + RowsBytes(crc, rows))
    requires forall j :: 0 <= j < |rows| ==> PtrOf(crc, fileId, rows, j) in vs
    ensures Holds(vs, Appends(crc, fileId, rows))
    ensures var r := ResolveHead(vs, PtrOf(crc, fileId, rows, i), x, s);
      r.Ok? || r.error == RowIdMismatch || r.error == TableIdMismatch
  {
    hide RowsBytes, RowFrame, Appendable, ReadAt, Walk, AppendOrder, LinkedBackwards;
    var appended := Appends(crc, fileId, rows);
    SegmentIsAppendOrder(crc, fileId, rows);
    forall j | 0 <= j < |appended|
      ensures appended[j].0 in vs && vs[appended[j].0] == appended[j].1
    {
      ReadBack(crc, header, rows, j);
    }
    AppendedWalksEnd(vs, appended, i, x, s, {}, 0);
  }
}

/** The directory of row heads: an ordered map with tombstones, persisted as sorted runs. */
module RowDir {
  import opened Wrappers
  import opened Codec
  import opened RowSeg
  import R = RunFile

  datatype DirEntry = Live(ptr: FilePtr) | Tombstone

  type Directory = map<u64, DirEntry>

  function AsLive(e: DirEntry): Option<FilePtr> {
    match e
    case Live(ptr) => Some(ptr)
    case Tombstone => None
  }

  /** The live head of a row, if any. */
  function Head(d: Directory, row: u64): Option<FilePtr> {
    if row in d then AsLive(d[row]) else None
  }

  /******* Codec *******/

  function EncodeEntry(e: DirEntry): Bytes {
    match e
    case Live(ptr) => [0] + PtrBytes(ptr)
    case Tombstone => [1]
  }

  function DecodeEntry(b: Bytes): Outcome<DirEntry> {
    if b == [] then Err(InvalidRunEntry)
    else if b[0] == 0 then (if |b| != 1 + PTR_LEN then Err(InvalidRunEntry) else Ok(Live(PtrFrom(b[1..]))))
    else if b[0] == 1 then (if |b| != 1 then Err(InvalidRunEntry) else Ok(Tombstone))
    else Err(UnsupportedEntryTag)
  }

  lemma EntryRoundTrip(e: DirEntry)
    ensures DecodeEntry(EncodeEntry(e)) == Ok(e)
  {
    if e.Live? {
      PtrRoundTrip(e.ptr);
      assert EncodeEntry(e)[1..] == PtrBytes(e.ptr);
    }
  }

  /** Exactly the encodings are accepted: tag 0 and a pointer, or tag 1 alone. */
  lemma EntryIff(b: Bytes, e: DirEntry)
    ensures DecodeEntry(b) == Ok(e) <==> b == EncodeEntry(e)
    ensures EncodeEntry(Tombstone) == [1]
    ensures b != [] && b[0] > 1 ==> DecodeEntry(b) == Err(UnsupportedEntryTag)
  {
    hide PtrBytes, PtrFrom;
    if DecodeEntry(b) == Ok(e) {
      assert b == [b[0]] + b[1..];
      if e.Live? {
        PtrIff(b[1..], e.ptr);
      }
    }
    if b == EncodeEntry(e) {
      EntryRoundTrip(e);
    }
  }

  function RowKey(row: u64): Bytes {
    Be(row, 8)
  }

  function DecodeRowKey(key: Bytes): Outcome<u64> {
    if |key| != 8 then Err(InvalidRunEntry)
    else
      Pow256Values();
      Ok(FromBe(key))
  }

  lemma RowKeyRoundTrip(row: u64)
    ensures DecodeRowKey(RowKey(row)) == Ok(row)
  {
    Pow256Values();
    BeRoundTrip(row, 8);
  }

  /** Exactly the eight-byte keys are accepted, each as the row whose key it is. */
  lemma RowKeyIff(key: Bytes, row: u64)
    ensures DecodeRowKey(key) == Ok(row) <==> key == RowKey(row)
  {
    hide Be, FromBe;
    if DecodeRowKey(key) == Ok(row) {
      BeOfFromBe(key);
    }
    if key == RowKey(row) {
      RowKeyRoundTrip(row);
    }
  }

  /******* Byte order of the keys is row order *******/

  lemma {:induction false} LessAppend(x: Bytes, y: Bytes, u: Bytes, v: Bytes)
    requires |x| == |y| && R.Less(x, y)
    ensures R.Less(x + u, y + v)
  {
    assert (x + u)[1..] == x[1..] + u && (y + v)[1..] == y[1..] + v;
    if x[0] == y[0] {
      LessAppend(x[1..], y[1..], u, v);
    }
  }

  lemma {:induction false} LessLastByte(x: Bytes, c: byte, d: byte)
    requires c < d
    ensures R.Less(x + [c], x + [d])
  {
    if x != [] {
      LessLastByte(x[1..], c, d);
      assert (x + [c])[1..] == x[1..] + [c] && (x + [d])[1..] == x[1..] + [d];
    }
  }

  /** Big-endian keys sort as the numbers do. */
  lemma {:induction false} BigEndianOrder(a: nat, b: nat, k: nat)
    requires a < b < Pow256(k)
    ensures R.Less(Be(a, k), Be(b, k))
    decreases k
  {
    if a / 256 < b / 256 {
      BigEndianOrder(a / 256, b / 256, k - 1);
      LessAppend(Be(a / 256, k - 1), Be(b / 256, k - 1), [a % 256], [b % 256]);
    } else {
      LessLastByte(Be(a / 256, k - 1), a % 256, b % 256);
    }
  }

  lemma RowKeyOrder(a: u64, b: u64)
    requires a < b
    ensures R.Less(RowKey(a), RowKey(b))
  {
    Pow256Values();
    BigEndianOrder(a, b, 8);
  }

  /******* Listings *******/

  type Rows = seq<(u64, DirEntry)>

  ghost predicate Ascending(rows: Rows) {
    forall i, j :: 0 <= i < j < |rows| ==> rows[i].0 < rows[j].0
  }

  /** Every entry of the directory once, in row order. */
  ghost predicate ListsRows(rows: Rows, d: Directory) {
    && Ascending(rows)
    && (forall i :: 0 <= i < |rows| ==> rows[i].0 in d && d[rows[i].0] == rows[i].1)
    && (forall row :: row in d ==> exists i :: 0 <= i < |rows| && rows[i].0 == row)
  }

  function EntryOf(row: (u64, DirEntry)): R.RunEntry {
    R.RunEntry(RowKey(row.0), EncodeEntry(row.1))
  }

  function RunEntries(rows: Rows): (es: seq<R.RunEntry>)
    ensures |es| == |rows|
  {
    seq(|rows|, i requires 0 <= i < |rows| => EntryOf(rows[i]))
  }

  lemma RunEntriesSorted(rows: Rows)
    requires Ascending(rows)
    ensures R.Sorted(RunEntries(rows))
  {
    hide R.Less;
    var es := RunEntries(rows);
    forall i, j | 0 <= i < j < |es|
      ensures R.Less(es[i].key, es[j].key)
    {
      RowKeyOrder(rows[i].0, rows[j].0);
    }
  }

  /** The file is a finished run of exactly the directory's entries. */
  ghost predicate HoldsDirectory(crc: Crc, file: Bytes, d: Directory) {
    exists rows :: ListsRows(rows, d) && R.IsRunOf(crc, file, RunEntries(rows))
  }

  /** What one row can add to a run file. */
  const ROW_WEIGHT: nat := 79

  /** So few rows that a run of them stays below 2^64 bytes. */
  predicate FitsRun(d: Directory) {
    ROW_WEIGHT * |d| + R.RUN_OVERHEAD < U64
  }

  lemma {:induction false} RowsWeigh(rows: Rows)
    ensures R.Weight(RunEntries(rows)) <= ROW_WEIGHT * |rows|
  {
    if rows != [] {
      var n := |rows| - 1;
      RowsWeigh(rows[..n]);
      assert RunEntries(rows)[..n] == RunEntries(rows[..n]);
      RowWeighs(rows[n]);
    }
  }

  lemma RowWeighs(row: (u64, DirEntry))
    ensures R.EntryWeight(EntryOf(row)) <= ROW_WEIGHT
  {
  }

  lemma LeastRow(rows: set<u64>) returns (least: u64)
    requires rows != {}
    ensures least in rows && forall r :: r in rows ==> least <= r
    decreases |rows|
  {
    var r0 :| r0 in rows;
    least := r0;
    var rest := rows - {r0};
    if rest != {} {
      var r := LeastRow(rest);
      least := if r < r0 then r else r0;
      assert forall k :: k in rows ==> k == r0 || k in rest;
    }
  }

  /** `rows` lists, in order, the entries of the rows not in `todo`, all below those in `todo`. */
  ghost predicate ListsSoFar(rows: Rows, d: Directory, todo: set<u64>) {
    && ListsRows(rows, d - todo)
    && forall i, r :: 0 <= i < |rows| && r in todo ==> rows[i].0 < r
  }

  lemma ListOneMore(rows: Rows, d: Directory, todo: set<u64>, row: u64)
    requires ListsSoFar(rows, d, todo) && row in todo && row in d && forall r :: r in todo ==> row <= r
    ensures ListsSoFar(rows + [(row, d[row])], d, todo - {row})
  {
    var more, rest := rows + [(row, d[row])], todo - {row};
    forall r | r in d - rest
      ensures exists i :: 0 <= i < |more| && more[i].0 == r
    {
      if r == row {
        assert more[|rows|].0 == r;
      } else {
        assert r in d - todo;
        var i :| 0 <= i < |rows| && rows[i].0 == r;
        assert more[i].0 == r;
      }
    }
  }

  /** Iterating the map in row order. */
  method InRowOrder(d: Directory) returns (rows: Rows)
    ensures ListsRows(rows, d) && |rows| == |d|
  {
    var todo: set<u64> := d.Keys;
    rows := [];
    assert ListsSoFar(rows, d, todo);
    hide ListsSoFar;
    while todo != {}
      invariant todo <= d.Keys && ListsSoFar(rows, d, todo) && |rows| == |d| - |todo|
    {
      ghost var least := LeastRow(todo);
      var row :| row in todo && forall r :: r in todo ==> row <= r;
      ListOneMore(rows, d, todo, row);
      rows, todo := rows + [(row, d[row])], todo - {row};
    }
    ListedAll(rows, d);
  }

  lemma ListedAll(rows: Rows, d: Directory)
    requires ListsSoFar(rows, d, {})
    ensures ListsRows(rows, d)
  {
    assert d - {} == d;
  }

  /******* Replaying a run *******/

  /** One replayed entry: live entries are set, tombstones remove what is there. */
  function Replayed(d: Directory, row: u64, e: DirEntry): Directory {
    match e
    case Live(_) => d[row := e]
    case Tombstone => d - {row}
  }

  function ReplayedAll(d: Directory, rows: Rows): Directory {
    if rows == [] then d
    else
      var n := |rows| - 1;
      Replayed(ReplayedAll(d, rows[..n]), rows[n].0, rows[n].1)
  }

  /** The live entries of `newer`, then those of `older` for rows `newer` does not mention. */
  function Merged(older: Directory, newer: Directory): Directory {
    map row | row in older.Keys + newer.Keys && (if row in newer then newer[row].Live? else true)
      :: if row in newer then newer[row] else older[row]
  }

  ghost function Upto(rows: Rows, d: Directory, n: nat): Directory
    requires ListsRows(rows, d) && n <= |rows|
  {
    map row | row in d && exists i :: 0 <= i < n && rows[i].0 == row :: d[row]
  }

  /** A run entry read back as a row and its entry. */
  function RowFromEntry(e: R.RunEntry): Outcome<(u64, DirEntry)> {
    var row :- DecodeRowKey(e.key);
    var entry :- DecodeEntry(e.value);
    Ok((row, entry))
  }

  function LoadEntries(d: Directory, es: seq<R.RunEntry>): (Directory, Outcome<()>)
    decreases |es|
  {
    if es == [] then (d, Ok(()))
    else
      var row := RowFromEntry(es[0]);
      if row.Err? then (d, Err(row.error)) else LoadEntries(Replayed(d, row.value.0, row.value.1), es[1..])
  }

  /** What loading any file does to a directory. */
  function LoadRun(crc: Crc, file: Bytes, d: Directory): (Directory, Outcome<()>) {
    var reader := R.OpenRun(crc, file);
    if reader.Err? then (d, Err(reader.error))
    else
      var es := R.ReadBlocks(reader.value, 0, []);
      if es.Err? then (d, Err(es.error)) else LoadEntries(d, es.value)
  }

  lemma {:induction false} ReplayIsMerge(older: Directory, rows: Rows, newer: Directory, n: nat)
    requires ListsRows(rows, newer) && n <= |rows|
    ensures ReplayedAll(older, rows[..n]) == Merged(older, Upto(rows, newer, n))
    decreases n
  {
    if n == 0 {
      assert Merged(older, Upto(rows, newer, 0)) == older;
    } else {
      var k := n - 1;
      ReplayIsMerge(older, rows, newer, k);
      assert rows[..n][..k] == rows[..k];
      UptoStep(rows, newer, k);
      MergeStep(older, Upto(rows, newer, k), rows[k].0, rows[k].1);
    }
  }

  lemma UptoStep(rows: Rows, d: Directory, k: nat)
    requires ListsRows(rows, d) && k < |rows|
    ensures rows[k].0 !in Upto(rows, d, k)
    ensures Upto(rows, d, k + 1) == Upto(rows, d, k)[rows[k].0 := rows[k].1]
  {
    assert rows[k].0 in Upto(rows, d, k + 1);
  }

  lemma MergeStep(older: Directory, newer: Directory, row: u64, e: DirEntry)
    requires row !in newer
    ensures Merged(older, newer[row := e]) == Replayed(Merged(older, newer), row, e)
  {
  }

  /** Replaying a listing of `newer` gives the merge, whatever the order of insertion made of it. */
  lemma ReplayAllIsMerge(older: Directory, rows: Rows, newer: Directory)
    requires ListsRows(rows, newer)
    ensures ReplayedAll(older, rows) == Merged(older, newer)
  {
    ReplayIsMerge(older, rows, newer, |rows|);
    assert rows[..|rows|] == rows;
    assert Upto(rows, newer, |rows|) == newer;
  }

  /******* The directory object *******/

  class RowDirectory {
    var entries: Directory

    constructor ()
      ensures entries == map[]
    {
      entries := map[];
    }

    method Put(row: u64, head: FilePtr)
      modifies this
      ensures entries == old(entries)[row := Live(head)]
    {
      entries := entries[row := Live(head)];
    }

    /** Deletes a row, leaving a tombstone. */
    method Remove(row: u64)
      modifies this
      ensures entries == old(entries)[row := Tombstone]
    {
      entries := entries[row := Tombstone];
    }

    method Forget(row: u64)
      modifies this
      ensures entries == old(entries) - {row}
    {
      entries := entries - {row};
    }

    method Get(row: u64) returns (head: Option<FilePtr>)
      ensures head == Head(entries, row)
    {
      return if row in entries then AsLive(entries[row]) else None;
    }

    /** Writing the directory out never fails on key order, and the file holds exactly its entries. */
    method FlushToRun(crc: Crc, created: u64) returns (r: Outcome<Bytes>)
      ensures r.Ok? && (FitsRun(entries) ==> |r.value| < U64)
      ensures |r.value| < U64 ==> HoldsDirectory(crc, r.value, entries)
    {
      hide R.IsRunOf, ListsRows, R.Sorted, R.Weight;
      var rows := InRowOrder(entries);
      RowsWeigh(rows);
      assert Ascending(rows) by {
        RowsAscend(rows, entries);
      }
      RunEntriesSorted(rows);
      r := R.WriteRun(crc, RunEntries(rows), 4096, created);
    }

    /** Replays any file; entries applied before an error stay applied. */
    method LoadFromRun(crc: Crc, file: Bytes) returns (r: Outcome<()>)
      modifies this
      ensures (entries, r) == LoadRun(crc, file, old(entries))
    {
      hide R.OpenRun, R.ReadBlocks, RowFromEntry;
      var reader :- R.OpenFile(crc, file);
      var es :- R.ReadAll(reader);
      ghost var was := entries;
      for i := 0 to |es|
        invariant LoadEntries(was, es) == LoadEntries(entries, es[i..])
      {
        assert es[i..][1..] == es[i + 1..];
        var row := RowFromEntry(es[i]);
        if row.Err? {
          return Err(row.error);
        }
        match row.value.1 {
          case Live(_) => entries := entries[row.value.0 := row.value.1];
          case Tombstone => entries := entries - {row.value.0};
        }
      }
      return Ok(());
    }
  }

  lemma RowsAscend(rows: Rows, d: Directory)
    requires ListsRows(rows, d)
    ensures Ascending(rows)
  {
  }

  lemma {:induction false} LoadListed(d: Directory, rows: Rows, i: nat)
    requires i <= |rows|
    ensures LoadEntries(ReplayedAll(d, rows[..i]), RunEntries(rows)[i..]) == (ReplayedAll(d, rows), Ok(()))
    decreases |rows| - i
  {
    hide RowKey, DecodeEntry, EncodeEntry, Replayed;
    if i == |rows| {
      assert rows[..i] == rows;
    } else {
      RowKeyRoundTrip(rows[i].0);
      EntryRoundTrip(rows[i].1);
      var es := RunEntries(rows)[i..];
      assert es[1..] == RunEntries(rows)[i + 1..];
      assert rows[..i + 1][..i] == rows[..i];
      LoadListed(d, rows, i + 1);
    }
  }

  /** Loading what a directory flushed always succeeds and merges it in. */
  lemma LoadFlushed(crc: Crc, file: Bytes, d: Directory, newer: Directory)
    requires HoldsDirectory(crc, file, newer)
    ensures LoadRun(crc, file, d) == (Merged(d, newer), Ok(()))
  {
    hide R.IsRunOf, R.OpenRun, R.ReadBlocks, ListsRows, Merged;
    var rows: Rows :| ListsRows(rows, newer) && R.IsRunOf(crc, file, RunEntries(rows));
    R.ScanIsEntries(crc, file, RunEntries(rows));
    LoadListed(d, rows, 0);
    assert rows[..0] == [] && RunEntries(rows)[0..] == RunEntries(rows);
    ReplayAllIsMerge(d, rows, newer);
  }

  /******* Stacks of runs *******/

  /** Each file holds the directory beside it. */
  ghost predicate HoldAll(crc: Crc, files: seq<Bytes>, dirs: seq<Directory>) {
    |files| == |dirs| && forall i :: 0 <= i < |files| ==> HoldsDirectory(crc, files[i], dirs[i])
  }

  /** The newest of the directories to mention the row decides: its head, or nothing if that one deleted it. */
  function NewestHead(dirs: seq<Directory>, row: u64): Option<FilePtr> {
    if dirs == [] then None
    else if row in dirs[|dirs| - 1] then AsLive(dirs[|dirs| - 1][row])
    else NewestHead(dirs[..|dirs| - 1], row)
  }

  function MergedAll(dirs: seq<Directory>): Directory {
    if dirs == [] then map[] else Merged(MergedAll(dirs[..|dirs| - 1]), dirs[|dirs| - 1])
  }

  lemma {:induction false} MergedIsNewest(dirs: seq<Directory>, row: u64)
    ensures Head(MergedAll(dirs), row) == NewestHead(dirs, row)
    ensures row in MergedAll(dirs) ==> MergedAll(dirs)[row].Live?
  {
    if dirs != [] {
      MergedIsNewest(dirs[..|dirs| - 1], row);
    }
  }

  /** Replaying flushed runs oldest first gives the newest-entry-wins view, with deletions hiding older heads. */
  method ReplayRuns(crc: Crc, files: seq<Bytes>, ghost dirs: seq<Directory>) returns (d: RowDirectory)
    requires HoldAll(crc, files, dirs)
    ensures fresh(d) && forall row :: Head(d.entries, row) == NewestHead(dirs, row)
  {
    hide Merged, HoldsDirectory, LoadRun;
    d := new RowDirectory();
    for i := 0 to |files|
      invariant fresh(d) && d.entries == MergedAll(dirs[..i])
    {
      assert dirs[..i + 1][..i] == dirs[..i];
      LoadFlushed(crc, files[i], d.entries, dirs[i]);
      var _ := d.LoadFromRun(crc, files[i]);
    }
    assert dirs[..|files|] == dirs;
    forall row
      ensures Head(d.entries, row) == NewestHead(dirs, row)
    {
      MergedIsNewest(dirs, row);
    }
  }

  /** A directory flushed and loaded afresh answers the same for every row; only its tombstones are gone. */
  method FlushAndReload(crc: Crc, d: RowDirectory, created: u64) returns (file: Bytes, again: RowDirectory)
    ensures FitsRun(d.entries) ==> |file| < U64
    ensures |file| < U64 ==> forall row :: Head(again.entries, row) == Head(d.entries, row)
    ensures |file| < U64 ==> again.entries == map row | row in d.entries && d.entries[row].Live? :: d.entries[row]
  {
    hide HoldsDirectory, LoadRun;
    var flushed := d.FlushToRun(crc, created);
    file := flushed.value;
    again := new RowDirectory();
    if |file| < U64 {
      LoadFlushed(crc, file, map[], d.entries);
    }
    var _ := again.LoadFromRun(crc, file);
  }

  lemma NewestOfTwo(older: Directory, newer: Directory, row: u64)
    ensures NewestHead([older, newer], row) == if row in newer then AsLive(newer[row]) else Head(older, row)
  {
    var dirs := [older, newer];
    assert dirs[..1] == [older] && [older][..0] == [];
    assert NewestHead([older], row) == if row in older then AsLive(older[row]) else NewestHead([], row);
  }

  /** Loading drops tombstones, so a newer run that was itself loaded and flushed again no longer hides what it deleted:
      the stack answers as before exactly when no deleted row has an older head. */
  lemma ReflushedAnswersIff(older: Directory, newer: Directory, row: u64)
    ensures NewestHead([older, Merged(map[], newer)], row) == NewestHead([older, newer], row)
      <==> !(row in newer && newer[row].Tombstone? && Head(older, row).Some?)
  {
    NewestOfTwo(older, newer, row);
    NewestOfTwo(older, Merged(map[], newer), row);
  }

  lemma FewerRowsFit(d: Directory)
    requires FitsRun(d)
    ensures FitsRun(Merged(map[], d))
  {
    var live := Merged(map[], d);
    CardinalityOfPart(live.Keys, d.Keys);
  }

  lemma CardinalityOfPart(part: set<u64>, all: set<u64>)
    requires part <= all
    ensures |part| <= |all|
  {
    assert all == part + (all - part);
  }

  /** Flushes both directories, replays the newer run over the older one, and does so again with the newer run loaded and
      flushed once more: a row answers differently exactly when it was deleted and has an older head. */
  method Reflush(crc: Crc, older: RowDirectory, newer: RowDirectory, now: u64)
    returns (stack: RowDirectory, again: RowDirectory)
    requires FitsRun(older.entries) && FitsRun(newer.entries)
    ensures forall row :: Head(stack.entries, row) == NewestHead([older.entries, newer.entries], row)
    ensures forall row :: Head(again.entries, row) == NewestHead([older.entries, Merged(map[], newer.entries)], row)
    ensures forall row :: (Head(again.entries, row) == Head(stack.entries, row)
      <==> !(row in newer.entries && newer.entries[row].Tombstone? && Head(older.entries, row).Some?))
  {
    hide HoldsDirectory, LoadRun, FitsRun, NewestHead;
    var low := older.FlushToRun(crc, now);
    var high := newer.FlushToRun(crc, now);
    stack := ReplayRuns(crc, [low.value, high.value], [older.entries, newer.entries]);
    var loaded := new RowDirectory();
    LoadFlushed(crc, high.value, map[], newer.entries);
    var _ := loaded.LoadFromRun(crc, high.value);
    FewerRowsFit(newer.entries);
    var higher := loaded.FlushToRun(crc, now);
    again := ReplayRuns(crc, [low.value, higher.value], [older.entries, loaded.entries]);
    forall row
      ensures Head(again.entries, row) == Head(stack.entries, row)
        <==> !(row in newer.entries && newer.entries[row].Tombstone? && Head(older.entries, row).Some?)
    {
      ReflushedAnswersIff(older.entries, newer.entries, row);
    }
  }

  /** The deletion of row 1 flushed over a run that has its head, and the same run loaded and flushed again first. */
  method ReflushedDeletionResurrects(crc: Crc, head: FilePtr, now: u64)
    returns (before: Option<FilePtr>, after: Option<FilePtr>)
    ensures before == None && after == Some(head)
  {
    var older := new RowDirectory();
    older.Put(1, head);
    var newer := new RowDirectory();
    newer.Remove(1);
    NewestOfTwo(older.entries, newer.entries, 1);
    NewestOfTwo(older.entries, Merged(map[], newer.entries), 1);
    var stack, again := Reflush(crc, older, newer, now);
    before := stack.Get(1);
    after := again.Get(1);
  }
}

/** Which version of a row a snapshot sees: the walk along a version chain. */
module Mvcc {
  import opened Wrappers
  import opened Codec
  import opened RowSeg

  /** A snapshot at a timestamp, or the latest one. */
  type Snapshot = Option<u64>

  /** The stored versions a resolver can load. */
  type Versions = map<FilePtr, RowVersion>

  const MAX_TS: u64 := 0xFFFF_FFFF_FFFF_FFFF

  function ReadTs(s: Snapshot): u64 {
    if s.Some? then s.value else MAX_TS
  }

  predicate VisibleAt(ts: u64, row: RowVersion) {
    row.beginTs != 0 && row.beginTs <= ts && (row.endTs == 0 || row.endTs > ts)
  }

  predicate Visible(s: Snapshot, row: RowVersion) {
    VisibleAt(ReadTs(s), row)
  }

  datatype VisibleVersion = VisibleVersion(ptr: FilePtr, row: RowVersion, hops: nat)

  datatype Lookup = Missing | Deleted(version: VisibleVersion) | Live(version: VisibleVersion)

  function Classify(v: VisibleVersion): Lookup {
    if IsDelete(v.row) then Deleted(v) else Live(v)
  }

  /** The ids every version of the chain must carry; unknown until the first version is read. */
  datatype Ids = Ids(row: Option<u64>, table: Option<u32>)

  function Check(x: Ids, row: RowVersion): Outcome<Ids> {
    if x.row.Some? && row.rowId != x.row.value then Err(RowIdMismatch)
    else if x.table.Some? && row.tableId != x.table.value then Err(TableIdMismatch)
    else Ok(Ids(Some(row.rowId), Some(row.tableId)))
  }

  /** The walk from `ptr`, having passed `hops` versions, those in `seen`. */
  function Walk(vs: Versions, ptr: FilePtr, x: Ids, s: Snapshot, seen: set<FilePtr>, hops: nat): Outcome<Lookup>
    decreases vs.Keys - seen
  {
    if ptr in seen then Err(ChainCycle)
    else if ptr !in vs then Err(MissingSegment)
    else
      var row := vs[ptr];
      var x' :- Check(x, row);
      if Visible(s, row) then Ok(Classify(VisibleVersion(ptr, row, hops + 1)))
      else if row.prevPtr == NO_PTR then Ok(Missing)
      else Walk(vs, row.prevPtr, x', s, seen + {ptr}, hops + 1)
  }

  function ResolveHead(vs: Versions, head: FilePtr, x: Ids, s: Snapshot): Outcome<Lookup> {
    if head == NO_PTR then Ok(Missing) else Walk(vs, head, x, s, {}, 0)
  }

  /** The lookup of a row id whose directory entry is `head`. */
  function ResolveRow(vs: Versions, head: Option<FilePtr>, rowId: u64, s: Snapshot): Outcome<Lookup> {
    if head.None? then Ok(Missing) else ResolveHead(vs, head.value, Ids(Some(rowId), None), s)
  }

  /** The walk as a loop; it ends on every finite set of versions, cyclic or not. */
  method ResolveChain(vs: Versions, head: FilePtr, ids: Ids, s: Snapshot) returns (r: Outcome<Lookup>)
    ensures r == ResolveHead(vs, head, ids, s)
  {
    if head == NO_PTR {
      return Ok(Missing);
    }
    var ptr, x, seen, hops := head, ids, {}, 0;
    while true
      invariant Walk(vs, head, ids, s, {}, 0) == Walk(vs, ptr, x, s, seen, hops)
      decreases vs.Keys - seen
    {
      if ptr in seen {
        return Err(ChainCycle);
      }
      if ptr !in vs {
        return Err(MissingSegment);
      }
      seen := seen + {ptr};
      var row := vs[ptr];
      var checked := Check(x, row);
      if checked.Err? {
        return Err(checked.error);
      }
      x := checked.value;
      hops := hops + 1;
      if Visible(s, row) {
        return Ok(Classify(VisibleVersion(ptr, row, hops)));
      }
      if row.prevPtr == NO_PTR {
        return Ok(Missing);
      }
      ptr := row.prevPtr;
    }
  }

  /******* The versions of a chain *******/

  /** The versions reachable from `ptr` without passing one in `seen`, newest first. */
  function Chain(vs: Versions, ptr: FilePtr, seen: set<FilePtr>): seq<RowVersion>
    decreases vs.Keys - seen
  {
    if ptr == NO_PTR || ptr in seen || ptr !in vs then []
    else [vs[ptr]] + Chain(vs, vs[ptr].prevPtr, seen + {ptr})
  }

  /** The first `n` versions of the chain are invisible. */
  predicate NoneVisible(s: Snapshot, chain: seq<RowVersion>, n: int) {
    n <= |chain| && forall i :: 0 <= i < n ==> !Visible(s, chain[i])
  }

  lemma FirstVisibleShifts(s: Snapshot, row: RowVersion, rest: seq<RowVersion>)
    requires !Visible(s, row)
    ensures forall n: nat :: NoneVisible(s, rest, n) ==> NoneVisible(s, [row] + rest, n + 1)
  {
    forall n: nat | NoneVisible(s, rest, n)
      ensures NoneVisible(s, [row] + rest, n + 1)
    {
      forall i | 0 <= i < n + 1
        ensures !Visible(s, ([row] + rest)[i])
      {
        assert i > 0 ==> ([row] + rest)[i] == rest[i - 1];
      }
    }
  }

  predicate FitsRow(x: Ids, first: RowVersion, row: RowVersion) {
    row.rowId == first.rowId && (x.row.Some? ==> row.rowId == x.row.value)
  }

  predicate FitsTable(x: Ids, first: RowVersion, row: RowVersion) {
    row.tableId == first.tableId && (x.table.Some? ==> row.tableId == x.table.value)
  }

  /** The first `n` versions are of one row and table, and of the row and table asked for. */
  predicate AllFit(x: Ids, chain: seq<RowVersion>, n: int) {
    n <= |chain| && forall i :: 0 <= i < n ==> FitsRow(x, chain[0], chain[i]) && FitsTable(x, chain[0], chain[i])
  }

  lemma FitShifts(x: Ids, row: RowVersion, rest: seq<RowVersion>)
    requires FitsRow(x, row, row) && FitsTable(x, row, row)
    ensures forall n: nat :: AllFit(Ids(Some(row.rowId), Some(row.tableId)), rest, n) ==> AllFit(x, [row] + rest, n + 1)
  {
    var x', chain := Ids(Some(row.rowId), Some(row.tableId)), [row] + rest;
    forall n: nat | AllFit(x', rest, n)
      ensures AllFit(x, chain, n + 1)
    {
      forall i | 0 <= i < n + 1
        ensures FitsRow(x, chain[0], chain[i]) && FitsTable(x, chain[0], chain[i])
      {
        if i > 0 {
          assert chain[i] == rest[i - 1] && FitsRow(x', rest[0], rest[i - 1]) && FitsTable(x', rest[0], rest[i - 1]);
        }
      }
    }
  }

  /** The answer for a version: deleted exactly when bit 0 of its flags is set. */
  predicate AnswersWith(vs: Versions, r: Lookup, row: RowVersion, hops: nat) {
    && !r.Missing? && (r.Deleted? <==> row.flags % 2 == 1)
    && r.version.row == row && r.version.hops == hops && r.version.ptr in vs && vs[r.version.ptr] == row
  }

  /** A walk that ends well returns the first visible version of the chain, at its position; a deletion among them hides
      every older version. */
  lemma {:induction false} WalkFindsFirst(vs: Versions, ptr: FilePtr, x: Ids, s: Snapshot, seen: set<FilePtr>, hops: nat)
    requires ptr != NO_PTR && Walk(vs, ptr, x, s, seen, hops).Ok?
    ensures var r, chain := Walk(vs, ptr, x, s, seen, hops).value, Chain(vs, ptr, seen);
      if r.Missing? then NoneVisible(s, chain, |chain|) && AllFit(x, chain, |chain|)
      else
        && hops < r.version.hops <= hops + |chain|
        && AnswersWith(vs, r, r.version.row, r.version.hops)
        && r.version.row == chain[r.version.hops - hops - 1] && Visible(s, r.version.row)
        && NoneVisible(s, chain, r.version.hops - hops - 1)
        && AllFit(x, chain, r.version.hops - hops)
    decreases vs.Keys - seen
  {
    var row := vs[ptr];
    var chain := Chain(vs, ptr, seen);
    var rest := Chain(vs, row.prevPtr, seen + {ptr});
    assert chain == [row] + rest;
    assert AllFit(Ids(Some(row.rowId), Some(row.tableId)), rest, 0);
    FitShifts(x, row, rest);
    if !Visible(s, row) {
      if row.prevPtr == NO_PTR {
        assert rest == [];
      } else {
        var x' := Check(x, row).value;
        WalkFindsFirst(vs, row.prevPtr, x', s, seen + {ptr}, hops + 1);
        FirstVisibleShifts(s, row, rest);
      }
    }
  }

  /** Where the chain from `ptr` stops: at no pointer, at one passed already, or at one that is not stored. */
  function EndOf(vs: Versions, ptr: FilePtr, seen: set<FilePtr>): FilePtr
    decreases vs.Keys - seen
  {
    if ptr == NO_PTR || ptr in seen || ptr !in vs then ptr else EndOf(vs, vs[ptr].prevPtr, seen + {ptr})
  }

  /** The walk goes on past the version: it is of the right row and table, and not visible. */
  predicate PassesBy(x: Ids, s: Snapshot, first: RowVersion, row: RowVersion) {
    FitsRow(x, first, row) && FitsTable(x, first, row) && !Visible(s, row)
  }

  /** What the walk does at version `n` of the chain when it gets there, and at its end: the wrong row, the wrong table, a
      visible version, the regular end, a circle, or a pointer to nothing. */
  lemma {:induction false} WalkDecides(vs: Versions, ptr: FilePtr, x: Ids, s: Snapshot, seen: set<FilePtr>, hops: nat,
                                       n: nat)
    requires ptr != NO_PTR && seen <= vs.Keys && n <= |Chain(vs, ptr, seen)|
    requires forall i :: 0 <= i < n ==> PassesBy(x, s, Chain(vs, ptr, seen)[0], Chain(vs, ptr, seen)[i])
    ensures var r, chain, end := Walk(vs, ptr, x, s, seen, hops), Chain(vs, ptr, seen), EndOf(vs, ptr, seen);
      if n < |chain| then
        && (!FitsRow(x, chain[0], chain[n]) ==> r == Err(RowIdMismatch))
        && (FitsRow(x, chain[0], chain[n]) && !FitsTable(x, chain[0], chain[n]) ==> r == Err(TableIdMismatch))
        && (FitsRow(x, chain[0], chain[n]) && FitsTable(x, chain[0], chain[n]) && Visible(s, chain[n]) ==>
              r.Ok? && AnswersWith(vs, r.value, chain[n], hops + n + 1))
      else r == if end == NO_PTR then Ok(Missing) else if end in vs then Err(ChainCycle) else Err(MissingSegment)
    decreases n
  {
    hide Visible;
    if ptr !in seen && ptr in vs {
      var row := vs[ptr];
      var chain, rest := Chain(vs, ptr, seen), Chain(vs, row.prevPtr, seen + {ptr});
      assert chain == [row] + rest;
      if n > 0 {
        assert chain[0] == row && PassesBy(x, s, chain[0], chain[0]);
        var x' := Ids(Some(row.rowId), Some(row.tableId));
        assert Check(x, row) == Ok(x');
        if row.prevPtr == NO_PTR {
          assert rest == [];
        } else {
          forall i | 0 <= i < n - 1
            ensures PassesBy(x', s, rest[0], rest[i])
          {
            assert rest[i] == chain[i + 1] && rest[0] == chain[1];
          }
          WalkDecides(vs, row.prevPtr, x', s, seen + {ptr}, hops + 1, n - 1);
          assert n < |chain| ==> chain[n] == rest[n - 1];
          assert n > 1 ==> PassesBy(x, s, chain[0], chain[1]);
        }
      }
    }
  }

  /** Adding versions under new pointers changes no walk that ended well. */
  lemma {:induction false} WalkSurvivesGrowth(vs: Versions, vs': Versions, ptr: FilePtr, x: Ids, s: Snapshot,
                                              seen: set<FilePtr>, hops: nat)
    requires vs.Keys <= vs'.Keys && forall p :: p in vs ==> vs'[p] == vs[p]
    requires Walk(vs, ptr, x, s, seen, hops).Ok?
    ensures Walk(vs', ptr, x, s, seen, hops) == Walk(vs, ptr, x, s, seen, hops)
    decreases vs.Keys - seen
  {
    var row := vs[ptr];
    if !Visible(s, row) && row.prevPtr != NO_PTR {
      WalkSurvivesGrowth(vs, vs', row.prevPtr, Check(x, row).value, s, seen + {ptr}, hops + 1);
    }
  }

  /******* Append order rules out cycles *******/

  /** Versions appended one after the other, each pointing at an earlier one or at none. */
  ghost predicate AppendOrder(appended: seq<(FilePtr, RowVersion)>) {
    && (forall i, j :: 0 <= i < j < |appended| ==> appended[i].0 != appended[j].0)
    && (forall i :: 0 <= i < |appended| ==> appended[i].0 != NO_PTR)
    && (forall i :: 0 <= i < |appended| && appended[i].1.prevPtr != NO_PTR ==>
          exists j :: 0 <= j < i && appended[j].0 == appended[i].1.prevPtr)
  }

  ghost predicate Holds(vs: Versions, appended: seq<(FilePtr, RowVersion)>) {
    forall i :: 0 <= i < |appended| ==> appended[i].0 in vs && vs[appended[i].0] == appended[i].1
  }

  /** Walking from an appended version meets no cycle and no missing pointer. */
  lemma {:induction false} AppendedWalksEnd(vs: Versions, appended: seq<(FilePtr, RowVersion)>, i: nat, x: Ids,
                                            s: Snapshot, seen: set<FilePtr>, hops: nat)
    requires AppendOrder(appended) && Holds(vs, appended) && i < |appended|
    requires forall j :: 0 <= j <= i ==> appended[j].0 !in seen
    ensures var r := Walk(vs, appended[i].0, x, s, seen, hops);
      r.Ok? || r.error == RowIdMismatch || r.error == TableIdMismatch
    decreases i
  {
    var row := appended[i].1;
    var checked := Check(x, row);
    if checked.Ok? && !Visible(s, row) && row.prevPtr != NO_PTR {
      var j :| 0 <= j < i && appended[j].0 == row.prevPtr;
      AppendedWalksEnd(vs, appended, j, checked.value, s, seen + {appended[i].0}, hops + 1);
    }
  }

  /** If moreover the versions share their row and table ids, the walk succeeds. */
  lemma {:induction false} AppendedWalksSucceed(vs: Versions, appended: seq<(FilePtr, RowVersion)>, i: nat, x: Ids,
                                                s: Snapshot, seen: set<FilePtr>, hops: nat)
    requires AppendOrder(appended) && Holds(vs, appended) && i < |appended|
    requires forall j :: 0 <= j <= i ==> appended[j].0 !in seen && Check(x, appended[j].1).Ok?
    requires forall j, k :: 0 <= j < |appended| && 0 <= k < |appended| ==>
      appended[j].1.rowId == appended[k].1.rowId && appended[j].1.tableId == appended[k].1.tableId
    ensures Walk(vs, appended[i].0, x, s, seen, hops).Ok?
    decreases i
  {
    var row := appended[i].1;
    if !Visible(s, row) && row.prevPtr != NO_PTR {
      var j :| 0 <= j < i && appended[j].0 == row.prevPtr;
      AppendedWalksSucceed(vs, appended, j, Check(x, row).value, s, seen + {appended[i].0}, hops + 1);
    }
  }

  /******* As-of reads *******/

  /** Newest first, each committed version ends where the next newer committed one begins; `next` is that begin, or 0
      for none. Staged versions may stand anywhere. */
  predicate Contiguous(chain: seq<RowVersion>, next: u64)
    decreases |chain|
  {
    chain == [] ||
    var v := chain[0];
    if v.beginTs == 0 then Contiguous(chain[1..], next)
    else v.endTs == next && (next == 0 || v.beginTs < next) && Contiguous(chain[1..], v.beginTs)
  }

  /** On a contiguous chain whose newer versions begin after `ts`, a version is visible at `ts` exactly when it has the
      greatest commit timestamp at or below `ts`. */
  lemma {:induction false} VisibleIsGreatest(chain: seq<RowVersion>, next: u64, ts: u64, i: nat)
    requires Contiguous(chain, next) && (next == 0 || next > ts) && i < |chain|
    ensures VisibleAt(ts, chain[i]) <==>
      && chain[i].beginTs != 0 && chain[i].beginTs <= ts
      && forall j :: 0 <= j < |chain| && chain[j].beginTs != 0 && chain[j].beginTs <= ts ==>
           chain[j].beginTs <= chain[i].beginTs
    decreases |chain|
  {
    var v, rest := chain[0], chain[1..];
    assert forall j :: 0 < j < |chain| ==> chain[j] == rest[j - 1];
    if v.beginTs == 0 {
      if i > 0 {
        VisibleIsGreatest(rest, next, ts, i - 1);
      }
    } else if v.beginTs > ts {
      if i > 0 {
        VisibleIsGreatest(rest, v.beginTs, ts, i - 1);
      }
    } else {
      OlderBeginsLower(rest, v.beginTs);
      if i > 0 {
        EndsByNext(rest, v.beginTs, i - 1);
      }
    }
  }

  lemma {:induction false} OlderBeginsLower(chain: seq<RowVersion>, next: u64)
    requires Contiguous(chain, next) && next != 0
    ensures forall j :: 0 <= j < |chain| && chain[j].beginTs != 0 ==> chain[j].beginTs < next
    decreases |chain|
  {
    if chain != [] {
      var v, rest := chain[0], chain[1..];
      OlderBeginsLower(rest, if v.beginTs == 0 then next else v.beginTs);
      assert forall j :: 0 < j < |chain| ==> chain[j] == rest[j - 1];
    }
  }

  lemma {:induction false} EndsByNext(chain: seq<RowVersion>, next: u64, i: nat)
    requires Contiguous(chain, next) && next != 0 && i < |chain|
    ensures chain[i].beginTs != 0 ==> 0 < chain[i].endTs <= next
    decreases |chain|
  {
    if i > 0 {
      var v := chain[0];
      EndsByNext(chain[1..], if v.beginTs == 0 then next else v.beginTs, i - 1);
    }
  }

  /** An as-of read of a contiguous chain returns the version with the greatest commit timestamp at or below the
      snapshot, skipping staged versions, and nothing exactly when there is none. */
  lemma AsOfReadsGreatest(vs: Versions, head: FilePtr, x: Ids, s: Snapshot)
    requires head != NO_PTR && Walk(vs, head, x, s, {}, 0).Ok?
    requires Contiguous(Chain(vs, head, {}), 0)
    ensures var r, chain, ts := Walk(vs, head, x, s, {}, 0).value, Chain(vs, head, {}), ReadTs(s);
      if r.Missing? then forall i :: 0 <= i < |chain| ==> chain[i].beginTs == 0 || chain[i].beginTs > ts
      else
        && AnswersWith(vs, r, r.version.row, r.version.hops)
        && r.version.row in chain && 0 < r.version.row.beginTs <= ts
        && forall i :: 0 <= i < |chain| && 0 < chain[i].beginTs <= ts ==> chain[i].beginTs <= r.version.row.beginTs
  {
    hide Walk, Chain, Contiguous, AnswersWith;
    WalkFindsFirst(vs, head, x, s, {}, 0);
    var r, chain, ts := Walk(vs, head, x, s, {}, 0).value, Chain(vs, head, {}), ReadTs(s);
    if r.Missing? {
      if i :| 0 <= i < |chain| && 0 < chain[i].beginTs <= ts {
        NewestBelowIsVisible(chain, 0, ts, i);
      }
    } else {
      VisibleIsGreatest(chain, 0, ts, r.version.hops - 1);
    }
  }

  /** A contiguous chain with some commit at or below `ts` has a version visible at `ts`. */
  lemma {:induction false} NewestBelowIsVisible(chain: seq<RowVersion>, next: u64, ts: u64, i: nat)
    requires Contiguous(chain, next) && (next == 0 || next > ts) && i < |chain| && 0 < chain[i].beginTs <= ts
    ensures exists k :: 0 <= k < |chain| && VisibleAt(ts, chain[k])
    decreases |chain|
  {
    var v, rest := chain[0], chain[1..];
    if 0 < v.beginTs <= ts {
      assert VisibleAt(ts, chain[0]);
    } else {
      NewestBelowIsVisible(rest, if v.beginTs == 0 then next else v.beginTs, ts, i - 1);
      var k :| 0 <= k < |rest| && VisibleAt(ts, rest[k]);
      assert chain[k + 1] == rest[k];
    }
  }
}

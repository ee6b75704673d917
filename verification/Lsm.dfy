/** A memtable over newest-first runs, and what it remembers across flushes and reopens. */
module Lsm {
  import opened Wrappers
  import opened Codec
  import opened RunFile

  type Table = map<Bytes, Bytes>

  function Lookup(t: Table, key: Bytes): Option<Bytes> {
    if key in t then Some(t[key]) else None
  }

  /** The entries of `es`, searched linearly, answer exactly as the table does. */
  ghost predicate Lists(es: seq<RunEntry>, t: Table) {
    forall key :: Find(es, key) == Lookup(t, key)
  }

  /** The file is a finished run whose entries are those of `t`. */
  ghost predicate Holds(crc: Crc, file: Bytes, t: Table) {
    exists es :: IsRunOf(crc, file, es) && Lists(es, t)
  }

  /******* Tables on top of tables *******/

  ghost function TableOf(contents: map<u32, Table>, id: u32): Table {
    if id in contents then contents[id] else map[]
  }

  /** Later tables win. */
  ghost function Overlay(ids: seq<u32>, contents: map<u32, Table>): Table {
    if ids == [] then map[] else Overlay(ids[..|ids| - 1], contents) + TableOf(contents, ids[|ids| - 1])
  }

  /** The runs other than `id`. */
  function Others(ids: seq<u32>, id: u32): (r: seq<u32>)
    ensures forall i :: 0 <= i < |r| ==> r[i] in ids
  {
    if ids == [] then []
    else Others(ids[..|ids| - 1], id) + if ids[|ids| - 1] == id then [] else [ids[|ids| - 1]]
  }

  lemma {:induction false} NoneToLeaveOut(ids: seq<u32>, id: u32)
    requires id !in ids
    ensures Others(ids, id) == ids
  {
    if ids != [] {
      NoneToLeaveOut(ids[..|ids| - 1], id);
      assert ids == ids[..|ids| - 1] + [ids[|ids| - 1]];
    }
  }

  /** Where `t` has no say, overwriting a run with it leaves what the other runs say. */
  lemma {:induction false} OverwrittenLookup(ids: seq<u32>, contents: map<u32, Table>, id: u32, t: Table, key: Bytes)
    requires key !in t
    ensures Lookup(Overlay(ids, contents[id := t]), key) == Lookup(Overlay(Others(ids, id), contents), key)
  {
    hide Overlay, Others;
    NoRunsNoAnswers(contents, id);
    NoRunsNoAnswers(contents[id := t], id);
    if ids != [] {
      var front, last := ids[..|ids| - 1], ids[|ids| - 1];
      assert ids == front + [last];
      OverwrittenLookup(front, contents, id, t, key);
      LastOverlay(front, contents[id := t], last);
      OthersLast(front, id, last);
      LastOverlay(Others(front, id), contents, last);
    }
  }

  lemma NoRunsNoAnswers(contents: map<u32, Table>, id: u32)
    ensures Overlay([], contents) == map[] && Others([], id) == []
  {
  }

  lemma LastOverlay(ids: seq<u32>, contents: map<u32, Table>, id: u32)
    ensures Overlay(ids + [id], contents) == Overlay(ids, contents) + TableOf(contents, id)
  {
    assert (ids + [id])[..|ids|] == ids;
  }

  lemma OthersLast(ids: seq<u32>, id: u32, last: u32)
    ensures Others(ids + [last], id) == if last == id then Others(ids, id) else Others(ids, id) + [last]
  {
    assert (ids + [last])[..|ids|] == ids && Others(ids, id) + [] == Others(ids, id);
  }

  /** No key that the memtable lacks needs the run `id` for its answer. */
  ghost predicate Dispensable(ids: seq<u32>, contents: map<u32, Table>, id: u32, memtable: Table)
  {
    forall key :: key !in memtable ==>
      Lookup(Overlay(Others(ids, id), contents), key) == Lookup(Overlay(ids, contents), key)
  }

  /** Writing the memtable as run `id`, whether or not a run has that id already, keeps every answer if and only if no
      key it lacks needs the run overwritten. */
  lemma NewRunKeepsAnswersIff(ids: seq<u32>, contents: map<u32, Table>, id: u32, memtable: Table)
    ensures Overlay(ids + [id], contents[id := memtable]) == Overlay(ids, contents) + memtable
      <==> Dispensable(ids, contents, id, memtable)
  {
    hide Overlay, Others;
    var after, before := Overlay(ids + [id], contents[id := memtable]), Overlay(ids, contents) + memtable;
    LastOverlay(ids, contents[id := memtable], id);
    forall key
      ensures Lookup(after, key) == Lookup(before, key) <==>
        key in memtable || Lookup(Overlay(Others(ids, id), contents), key) == Lookup(Overlay(ids, contents), key)
    {
      if key !in memtable {
        OverwrittenLookup(ids, contents, id, memtable, key);
      }
    }
    SameTables(after, before);
  }

  lemma SameTables(a: Table, b: Table)
    ensures a == b <==> forall key :: Lookup(a, key) == Lookup(b, key)
  {
    if forall key :: Lookup(a, key) == Lookup(b, key) {
      forall key
        ensures key in a <==> key in b
        ensures key in a ==> a[key] == b[key]
      {
        assert Lookup(a, key) == Lookup(b, key);
      }
    }
  }

  /** Under an id no run has, every answer is kept. */
  lemma FreshRunKeepsAnswers(ids: seq<u32>, contents: map<u32, Table>, id: u32, memtable: Table)
    requires id !in ids
    ensures Dispensable(ids, contents, id, memtable)
  {
    NoneToLeaveOut(ids, id);
  }

  function Copies(id: u32, n: nat): seq<u32> {
    seq(n, _ => id)
  }

  lemma {:induction false} OverlayCopies(ids: seq<u32>, contents: map<u32, Table>, id: u32, n: nat)
    requires n > 0
    ensures Overlay(ids + Copies(id, n), contents) == Overlay(ids, contents) + TableOf(contents, id)
    decreases n
  {
    hide Overlay;
    var fewer := ids + Copies(id, n - 1);
    assert ids + Copies(id, n) == fewer + [id];
    LastOverlay(fewer, contents, id);
    if n > 1 {
      OverlayCopies(ids, contents, id, n - 1);
    } else {
      assert fewer == ids;
    }
  }

  lemma {:induction false} OthersCopies(ids: seq<u32>, id: u32, n: nat)
    requires id !in ids
    ensures Others(ids + Copies(id, n), id) == ids
    decreases n
  {
    if n == 0 {
      assert ids + Copies(id, 0) == ids;
      NoneToLeaveOut(ids, id);
    } else {
      OthersCopies(ids, id, n - 1);
      OthersLast(ids + Copies(id, n - 1), id, id);
      assert ids + Copies(id, n) == ids + Copies(id, n - 1) + [id];
    }
  }

  /** Each time the saturated counter names the newest run again, the run it named before is overwritten. However often
      that has happened, the answers survive once more exactly when every key that run held is in the memtable too, or
      has the same value in an older run. */
  lemma ReusedRunKeepsAnswersIff(ids: seq<u32>, contents: map<u32, Table>, id: u32, n: nat, memtable: Table)
    requires id !in ids && id in contents && n > 0
    ensures Overlay(ids + Copies(id, n + 1), contents[id := memtable])
         == Overlay(ids + Copies(id, n), contents) + memtable
      <==> forall key :: key in contents[id] && key !in memtable ==>
             Lookup(Overlay(ids, contents), key) == Some(contents[id][key])
  {
    hide Overlay, Others;
    var all := ids + Copies(id, n);
    assert all + [id] == ids + Copies(id, n + 1);
    OverlayCopies(ids, contents, id, n);
    OthersCopies(ids, id, n);
    NewRunKeepsAnswersIff(all, contents, id, memtable);
    if Dispensable(all, contents, id, memtable) {
      forall key | key in contents[id] && key !in memtable
        ensures Lookup(Overlay(ids, contents), key) == Some(contents[id][key])
      {
        assert Lookup(Overlay(Others(all, id), contents), key) == Lookup(Overlay(all, contents), key);
      }
    }
  }

  /******* Listing a table in key order *******/

  lemma {:induction false} LeastExists(keys: set<Bytes>) returns (least: Bytes)
    requires keys != {}
    ensures least in keys && forall k :: k in keys && k != least ==> Less(least, k)
    decreases |keys|
  {
    hide Less;
    var k0 :| k0 in keys;
    var rest := keys - {k0};
    least := k0;
    if rest != {} {
      var r := LeastExists(rest);
      LessTotal(k0, r);
      if Less(r, k0) {
        least := r;
      } else {
        forall k | k in keys && k != k0
          ensures Less(k0, k)
        {
          if k != r {
            LessTransitive(k0, r, k);
          }
        }
      }
    }
  }

  lemma ListsGrow(es: seq<RunEntry>, t: Table, key: Bytes, value: Bytes)
    requires Lists(es, t) && key !in t
    ensures Lists(es + [RunEntry(key, value)], t[key := value])
  {
    var e := RunEntry(key, value);
    forall k
      ensures Find(es + [e], k) == Lookup(t[key := value], k)
    {
      FindAppend(es, [e], k);
      assert [e][1..] == [];
      assert Find(es, k) == Lookup(t, k);
    }
  }

  /** What an entry can add to a run file, summed over a table. */
  ghost function TableWeight(t: Table): nat
    decreases |t|
  {
    if t == map[] then 0
    else
      var key :| key in t;
      TableWeight(t - {key}) + EntryWeight(RunEntry(key, t[key]))
  }

  lemma {:induction false} WeightWithout(t: Table, key: Bytes)
    requires key in t
    ensures TableWeight(t) == TableWeight(t - {key}) + EntryWeight(RunEntry(key, t[key]))
    decreases |t|
  {
    hide EntryWeight;
    var k :| k in t && TableWeight(t) == TableWeight(t - {k}) + EntryWeight(RunEntry(k, t[k]));
    if k != key {
      WeightWithout(t - {k}, key);
      WeightWithout(t - {key}, k);
      assert t - {k} - {key} == t - {key} - {k};
    }
  }

  /** Inserting adds at most the weight of the entry. */
  lemma WeightInserted(t: Table, key: Bytes, value: Bytes)
    ensures TableWeight(t[key := value]) <= TableWeight(t) + EntryWeight(RunEntry(key, value))
    ensures key !in t ==> TableWeight(t[key := value]) == TableWeight(t) + EntryWeight(RunEntry(key, value))
  {
    hide EntryWeight;
    WeightWithout(t[key := value], key);
    assert t[key := value] - {key} == t - {key};
    if key in t {
      WeightWithout(t, key);
    } else {
      assert t - {key} == t;
    }
  }

  /** Iterating the memtable in key order: a sorted list of exactly its entries. */
  method InKeyOrder(t: Table) returns (es: seq<RunEntry>)
    ensures Sorted(es) && Lists(es, t) && Weight(es) == TableWeight(t)
  {
    var todo: set<Bytes> := t.Keys;
    ghost var taken: Table := map[];
    es := [];
    assert Sorted(es) && Weight(es) == 0;
    hide Less, Sorted, Weight, TableWeight, EntryWeight;
    EmptyWeighsNothing();
    while todo != {}
      invariant Sorted(es) && Lists(es, taken) && Weight(es) == TableWeight(taken)
      invariant todo <= t.Keys && taken.Keys == t.Keys - todo && forall k :: k in taken ==> taken[k] == t[k]
      invariant forall k :: k in todo ==> AboveLast(es, k)
    {
      ghost var least := LeastExists(todo);
      var key :| key in todo && forall k :: k in todo && k != key ==> Less(key, k);
      var e := RunEntry(key, t[key]);
      SortedGrows(es, e);
      ListsGrow(es, taken, key, t[key]);
      WeightInserted(taken, key, t[key]);
      OneMoreWeighs(es, e);
      taken, todo, es := taken[key := t[key]], todo - {key}, es + [e];
    }
    assert taken == t;
  }

  lemma EmptyWeighsNothing()
    ensures TableWeight(map[]) == 0
  {
  }

  lemma OneMoreWeighs(es: seq<RunEntry>, e: RunEntry)
    ensures Weight(es + [e]) == Weight(es) + EntryWeight(e)
  {
    assert (es + [e])[..|es|] == es;
  }

  /** The memtable written out as a run file; only one of 2^64 bytes or more, which no file system holds, fails. */
  method WriteTable(crc: Crc, t: Table, targetBlockSize: nat, created: u64) returns (r: Outcome<Bytes>)
    ensures r.Ok? ==> Holds(crc, r.value, t)
    ensures r.Err? ==> r.error == TooLong && TableWeight(t) + RUN_OVERHEAD >= U64
  {
    hide IsRunOf, Sorted, Lists, Weight, TableWeight;
    var es := InKeyOrder(t);
    r := WriteRun(crc, es, targetBlockSize, created);
    if |r.value| >= U64 {
      return Err(TooLong);
    }
  }

  lemma HeldLookup(crc: Crc, file: Bytes, t: Table, key: Bytes)
    requires Holds(crc, file, t)
    ensures GetFromFile(crc, file, key) == Ok(Lookup(t, key))
  {
    hide IsRunOf, Find, GetFromFile;
    var es :| IsRunOf(crc, file, es) && Lists(es, t);
    LookUpIsFind(crc, file, es, key);
  }

  /** Each run file holds the table recorded for it. */
  ghost predicate DirectoryHolds(crc: Crc, files: map<u32, Bytes>, contents: map<u32, Table>) {
    files.Keys == contents.Keys && forall id :: id in files ==> Holds(crc, files[id], contents[id])
  }

  predicate AreTheRuns(ids: seq<u32>, all: set<u32>) {
    (forall id :: id in all ==> id in ids) && forall i :: 0 <= i < |ids| ==> ids[i] in all
  }

  lemma RunAdded(crc: Crc, files: map<u32, Bytes>, contents: map<u32, Table>, ids: seq<u32>, id: u32, file: Bytes, t: Table)
    requires AreTheRuns(ids, files.Keys) && Holds(crc, file, t)
    ensures AreTheRuns(ids + [id], files[id := file].Keys)
    ensures DirectoryHolds(crc, files, contents) ==>
      && DirectoryHolds(crc, files[id := file], contents[id := t])
      && (Overlay(ids + [id], contents[id := t]) == Overlay(ids, contents) + t <==> Dispensable(ids, contents, id, t))
  {
    hide Holds;
    if DirectoryHolds(crc, files, contents) {
      NewRunKeepsAnswersIff(ids, contents, id, t);
    }
  }

  ghost predicate NonDecreasing(ids: seq<u32>) {
    forall i, j :: 0 <= i < j < |ids| ==> ids[i] <= ids[j]
  }

  /** The run ids in use are increasing and below the next one, until the counter saturates. */
  ghost predicate IdsInOrder(ids: seq<u32>, next: u32) {
    && NonDecreasing(ids)
    && if next in ids then next == U32 - 1 else Increasing(ids) && forall i :: 0 <= i < |ids| ==> ids[i] < next
  }

  function NextId(id: u32): u32 {
    if id < U32 - 1 then id + 1 else id
  }

  lemma IdAdded(ids: seq<u32>, next: u32)
    requires IdsInOrder(ids, next)
    ensures IdsInOrder(ids + [next], NextId(next))
  {
    var more := ids + [next];
    assert more[|ids|] == next;
  }

  /** The answer of the runs of any directory, searched from the newest back; the first error is returned. */
  function Answer(crc: Crc, files: map<u32, Bytes>, ids: seq<u32>, key: Bytes): Outcome<Option<Bytes>>
    requires forall i :: 0 <= i < |ids| ==> ids[i] in files
  {
    if ids == [] then Ok(None)
    else
      var found :- GetFromFile(crc, files[ids[|ids| - 1]], key);
      if found.Some? then Ok(found) else Answer(crc, files, ids[..|ids| - 1], key)
  }

  /** In a directory of run files that answer is the one of the tables on top of each other. */
  lemma {:induction false} AnswerIsOverlay(crc: Crc, files: map<u32, Bytes>, contents: map<u32, Table>, ids: seq<u32>,
                                           key: Bytes)
    requires DirectoryHolds(crc, files, contents) && forall i :: 0 <= i < |ids| ==> ids[i] in files
    ensures Answer(crc, files, ids, key) == Ok(Lookup(Overlay(ids, contents), key))
  {
    hide Holds, GetFromFile;
    if ids != [] {
      var id := ids[|ids| - 1];
      HeldLookup(crc, files[id], contents[id], key);
      AnswerIsOverlay(crc, files, contents, ids[..|ids| - 1], key);
    }
  }

  /******* The store *******/

  class SimpleLsm {
    const crc: Crc
    const targetBlockSize: nat
    const memtableMaxEntries: nat
    /** The directory: the contents of each run file by its id. */
    var files: map<u32, Bytes>
    var memtable: Table
    var level0Runs: seq<u32>
    var nextRunId: u32
    ghost var contents: map<u32, Table>

    /** The runs in use are the files of the directory. */
    ghost predicate Listed()
      reads this`files, this`level0Runs
    {
      AreTheRuns(level0Runs, files.Keys)
    }

    /** Moreover each file holds the table recorded for it. */
    ghost predicate RunsFollow()
      reads this`files, this`contents, this`level0Runs
    {
      DirectoryHolds(crc, files, contents) && Listed()
    }

    /** Run ids are used up once the saturating counter names a run that exists. */
    ghost predicate Exhausted()
      reads this`level0Runs, this`nextRunId
    {
      nextRunId in level0Runs
    }

    ghost predicate InOrder()
      reads this`level0Runs, this`nextRunId
    {
      IdsInOrder(level0Runs, nextRunId)
    }

    /** What the runs hold: all that a reopen leaves. */
    ghost function Durable(): Table
      reads this`files, this`contents, this`level0Runs
      requires RunsFollow()
    {
      Overlay(level0Runs, contents)
    }

    /** What lookups answer from. */
    ghost function Live(): Table
      reads this`files, this`contents, this`level0Runs, this`memtable
      requires RunsFollow()
    {
      Durable() + memtable
    }

    /** Opens a directory whose entries are listed in any order: runs are put in id order, the memtable is empty. After a
        run with the last id the counter wraps to 0. */
    constructor Open(crc: Crc, targetBlockSize: nat, memtableMaxEntries: nat, files: map<u32, Bytes>, listing: seq<u32>,
                     ghost contents: map<u32, Table>)
      requires IsListing(listing, files.Keys)
      ensures Listed() && Increasing(level0Runs) && memtable == map[]
      ensures this.crc == crc && this.targetBlockSize == targetBlockSize && this.memtableMaxEntries == memtableMaxEntries
      ensures this.files == files && this.contents == contents
      ensures nextRunId == AfterLast(level0Runs)
      ensures DirectoryHolds(crc, files, contents) ==> RunsFollow()
      ensures U32 - 1 !in files ==> InOrder() && !Exhausted()
    {
      hide DirectoryHolds, AreTheRuns, IdsInOrder, IsListing, Increasing;
      this.crc, this.targetBlockSize, this.memtableMaxEntries := crc, targetBlockSize, memtableMaxEntries;
      this.files, this.contents, memtable := files, contents, map[];
      var sorted := SortIds(listing, files.Keys);
      level0Runs := sorted;
      SortedListing(listing, sorted, files.Keys);
      nextRunId := AfterLast(sorted);
    }

    /** The memtable first, then the runs from the newest back, whatever their files hold. */
    method Get(key: Bytes) returns (r: Outcome<Option<Bytes>>)
      requires Listed()
      ensures r == if key in memtable then Ok(Some(memtable[key])) else Answer(crc, files, level0Runs, key)
      ensures RunsFollow() ==> r == Ok(Lookup(Live(), key))
    {
      hide Overlay, DirectoryHolds, GetFromFile;
      if RunsFollow() {
        AnswerIsOverlay(crc, files, contents, level0Runs, key);
      }
      if key in memtable {
        return Ok(Some(memtable[key]));
      }
      var i := |level0Runs|;
      assert level0Runs[..i] == level0Runs;
      while i > 0
        invariant 0 <= i <= |level0Runs|
        invariant Answer(crc, files, level0Runs[..i], key) == Answer(crc, files, level0Runs, key)
      {
        assert level0Runs[..i][..i - 1] == level0Runs[..i - 1];
        i := i - 1;
        var found :- LookUp(crc, files[level0Runs[i]], key);
        if found.Some? {
          return Ok(found);
        }
      }
      return Ok(None);
    }

    /** Moves the memtable into a new run. No answer changes if and only if no key the memtable lacks needs the run the new
        one overwrites, as none does while run ids last. Only a run of 2^64 bytes is not written, and nothing changes. */
    method FlushMemtable(created: u64) returns (r: Outcome<Option<u32>>)
      requires Listed()
      modifies this`files, this`memtable, this`level0Runs, this`nextRunId, this`contents
      ensures Listed() && (old(RunsFollow()) ==> RunsFollow()) && (old(InOrder()) ==> InOrder())
      ensures r.Err? ==> r.error == TooLong && TableWeight(old(memtable)) + RUN_OVERHEAD >= U64
      ensures r.Ok? ==> memtable == map[] && r.value == if old(memtable) == map[] then None else Some(old(nextRunId))
      ensures r.Err? || r.value.None? ==>
        files == old(files) && contents == old(contents) && memtable == old(memtable) && level0Runs == old(level0Runs)
        && nextRunId == old(nextRunId)
      ensures r.Ok? && r.value.Some? ==>
        && level0Runs == old(level0Runs) + [old(nextRunId)] && nextRunId == NextId(old(nextRunId))
        && contents == old(contents)[old(nextRunId) := old(memtable)]
        && old(nextRunId) in files && files == old(files)[old(nextRunId) := files[old(nextRunId)]]
        && Holds(crc, files[old(nextRunId)], old(memtable))
      ensures r.Ok? && old(RunsFollow()) ==>
        (Durable() == old(Live()) <==>
         old(memtable) == map[] || old(Dispensable(level0Runs, contents, nextRunId, memtable)))
      ensures r.Ok? && old(RunsFollow()) && !old(Exhausted()) ==> Durable() == old(Live())
    {
      hide Holds, Overlay, DirectoryHolds, IdsInOrder, TableWeight, Dispensable;
      if memtable == map[] {
        NothingOnTop(this);
        return Ok(None);
      }
      var id, ids := nextRunId, level0Runs;
      var written :- WriteTable(crc, memtable, targetBlockSize, created);
      RunAdded(crc, files, contents, ids, id, written, memtable);
      if InOrder() {
        IdAdded(ids, id);
      }
      if RunsFollow() && id !in ids {
        FreshRunKeepsAnswers(ids, contents, id, memtable);
      }
      files, contents := files[id := written], contents[id := memtable];
      memtable, level0Runs := map[], ids + [id];
      nextRunId := NextId(id);
      return Ok(Some(id));
    }

    predicate Full(t: Table) {
      memtableMaxEntries > 0 && |t| >= memtableMaxEntries
    }

    /** Inserts, and flushes when the memtable is full. If that fails the insertion stays in the memtable. */
    method Put(key: Bytes, value: Bytes, created: u64) returns (r: Outcome<Option<u32>>)
      requires Listed()
      modifies this`files, this`memtable, this`level0Runs, this`nextRunId, this`contents
      ensures Listed() && (old(RunsFollow()) ==> RunsFollow()) && (old(InOrder()) ==> InOrder())
      ensures r.Err? ==>
        && r.error == TooLong && Full(old(memtable)[key := value])
        && TableWeight(old(memtable)[key := value]) + RUN_OVERHEAD >= U64
      ensures r.Ok? ==> r.value == if Full(old(memtable)[key := value]) then Some(old(nextRunId)) else None
      ensures r.Err? || r.value.None? ==>
        && memtable == old(memtable)[key := value] && files == old(files) && contents == old(contents)
        && level0Runs == old(level0Runs) && nextRunId == old(nextRunId)
      ensures r.Ok? && r.value.Some? ==>
        && memtable == map[] && level0Runs == old(level0Runs) + [old(nextRunId)] && nextRunId == NextId(old(nextRunId))
        && contents == old(contents)[old(nextRunId) := old(memtable)[key := value]]
        && old(nextRunId) in files && files == old(files)[old(nextRunId) := files[old(nextRunId)]]
        && Holds(crc, files[old(nextRunId)], old(memtable)[key := value])
      ensures r.Ok? && old(RunsFollow()) && !old(Exhausted()) ==>
        View(this) == AfterPut(old(View(this)), memtableMaxEntries, key, value)
    {
      hide Holds, Overlay, DirectoryHolds, IdsInOrder, TableWeight, Dispensable;
      ghost var before := memtable;
      memtable := memtable[key := value];
      assert |memtable| > 0;
      if memtableMaxEntries > 0 && |memtable| >= memtableMaxEntries {
        r := FlushMemtable(created);
        return;
      }
      return Ok(None);
    }
  }

  lemma NothingOnTop(lsm: SimpleLsm)
    requires lsm.memtable == map[]
    ensures lsm.RunsFollow() ==> lsm.Live() == lsm.Durable()
  {
    hide Overlay, DirectoryHolds, AreTheRuns;
    if lsm.RunsFollow() {
      NothingAdded(lsm.Durable());
    }
  }

  lemma NothingAdded(t: Table)
    ensures t + map[] == t
  {
  }

  ghost predicate Increasing(ids: seq<u32>) {
    forall i, j :: 0 <= i < j < |ids| ==> ids[i] < ids[j]
  }

  /** A directory listing: every entry once, in no particular order. */
  ghost predicate IsListing(listing: seq<u32>, ids: set<u32>) {
    && (forall id :: id in ids <==> id in listing)
    && forall i, j :: 0 <= i < j < |listing| ==> listing[i] != listing[j]
  }

  /** The id after the last one, in wrapping u32 arithmetic. */
  function AfterLast(ids: seq<u32>): u32 {
    if ids == [] then 1 else (ids[|ids| - 1] + 1) % U32
  }

  lemma SortedListing(listing: seq<u32>, sorted: seq<u32>, all: set<u32>)
    requires IsListing(listing, all) && Increasing(sorted) && forall id :: id in sorted <==> id in listing
    ensures AreTheRuns(sorted, all)
    ensures U32 - 1 !in all ==> IdsInOrder(sorted, AfterLast(sorted)) && AfterLast(sorted) !in sorted
  {
    assert sorted != [] ==> sorted[|sorted| - 1] in all;
  }

  /** The listing sorted by run id. */
  method SortIds(listing: seq<u32>, ghost all: set<u32>) returns (sorted: seq<u32>)
    requires IsListing(listing, all)
    ensures Increasing(sorted) && forall id :: id in sorted <==> id in listing
  {
    sorted := [];
    for i := 0 to |listing|
      invariant Increasing(sorted) && forall id :: id in sorted <==> id in listing[..i]
    {
      assert listing[..i + 1] == listing[..i] + [listing[i]];
      assert listing[i] !in listing[..i];
      sorted := InsertId(sorted, listing[i]);
    }
    assert listing[..|listing|] == listing;
  }

  method InsertId(ids: seq<u32>, id: u32) returns (r: seq<u32>)
    requires Increasing(ids) && id !in ids
    ensures Increasing(r) && forall k :: k in r <==> k in ids || k == id
  {
    var at := |ids|;
    while at > 0 && ids[at - 1] > id
      invariant 0 <= at <= |ids|
      invariant forall k :: at <= k < |ids| ==> ids[k] > id
    {
      at := at - 1;
    }
    r := ids[..at] + [id] + ids[at..];
    assert forall k :: k in ids <==> k in ids[..at] || k in ids[at..];
  }

  /** Dropping the largest id drops it from the set. */
  lemma WithoutLast(ids: seq<u32>, id: u32)
    requires Increasing(ids) && ids != []
    ensures id in ids[..|ids| - 1] <==> id in ids && id < ids[|ids| - 1]
    ensures id in ids ==> id <= ids[|ids| - 1]
  {
    if id in ids {
      var i :| 0 <= i < |ids| && ids[i] == id;
      if i < |ids| - 1 {
        assert ids[..|ids| - 1][i] == id;
      }
    }
  }

  ghost predicate SameIds(a: seq<u32>, b: seq<u32>) {
    forall id :: id in a <==> id in b
  }

  lemma SameWithoutLast(a: seq<u32>, b: seq<u32>)
    requires Increasing(a) && Increasing(b) && SameIds(a, b) && a != [] && b != []
    ensures a[|a| - 1] == b[|b| - 1] && SameIds(a[..|a| - 1], b[..|b| - 1])
  {
    hide Increasing;
    var n, m := |a| - 1, |b| - 1;
    assert a[n] in b && b[m] in a;
    WithoutLast(a, b[m]);
    WithoutLast(b, a[n]);
    forall id
      ensures id in a[..n] <==> id in b[..m]
    {
      WithoutLast(a, id);
      WithoutLast(b, id);
    }
  }

  /** There is one increasing list of a set of ids. */
  lemma {:induction false} IncreasingIsUnique(a: seq<u32>, b: seq<u32>)
    requires Increasing(a) && Increasing(b) && SameIds(a, b)
    ensures a == b
    decreases |a|
  {
    assert a != [] ==> a[0] in a;
    assert b != [] ==> b[0] in b;
    if a != [] && b != [] {
      hide SameIds;
      var n, m := |a| - 1, |b| - 1;
      SameWithoutLast(a, b);
      IncreasingIsUnique(a[..n], b[..m]);
      assert a == a[..n] + [a[n]] && b == b[..m] + [b[m]];
    }
  }

  /******* Runs of operations *******/

  /** What is on disk and what is only in memory. */
  datatype State = State(durable: Table, pending: Table)

  datatype Op = Put(key: Bytes, value: Bytes) | Flush | Reopen

  function AfterFlush(s: State): State {
    State(s.durable + s.pending, map[])
  }

  function AfterPut(s: State, max: nat, key: Bytes, value: Bytes): State {
    var s' := s.(pending := s.pending[key := value]);
    if max > 0 && |s'.pending| >= max then AfterFlush(s') else s'
  }

  function After(s: State, max: nat, op: Op): State {
    match op
    case Put(key, value) => AfterPut(s, max, key, value)
    case Flush => AfterFlush(s)
    case Reopen => s.(pending := map[])
  }

  function Trace(max: nat, ops: seq<Op>): State {
    if ops == [] then State(map[], map[]) else After(Trace(max, ops[..|ops| - 1]), max, ops[|ops| - 1])
  }

  ghost function View(lsm: SimpleLsm): State
    reads lsm
    requires lsm.RunsFollow()
  {
    State(lsm.Durable(), lsm.memtable)
  }

  /** Whether operation `i` writes the memtable out: an explicit flush, or a put that fills the memtable. */
  ghost predicate Flushes(max: nat, ops: seq<Op>, i: nat)
    requires i < |ops|
  {
    || ops[i].Flush?
    || (ops[i].Put? && max > 0 && |Trace(max, ops[..i]).pending[ops[i].key := ops[i].value]| >= max)
  }

  /** Some flush from operation `i` up to, not including, operation `j`. */
  ghost predicate FlushedBetween(max: nat, ops: seq<Op>, i: nat, j: nat)
    requires j <= |ops|
  {
    exists f: nat :: i <= f < j && Flushes(max, ops, f)
  }

  /** The put is not lost: before each later reopen the memtable it went into was flushed. */
  ghost predicate Survives(max: nat, ops: seq<Op>, i: nat) {
    i < |ops| && ops[i].Put? && forall j :: i < j < |ops| && ops[j].Reopen? ==> FlushedBetween(max, ops, i, j)
  }

  ghost predicate Saved(max: nat, ops: seq<Op>, i: nat) {
    Survives(max, ops, i) && FlushedBetween(max, ops, i, |ops|)
  }

  /** The table maps each key to its last put among those in `which`, and has no other keys. */
  ghost predicate LastOf(t: Table, ops: seq<Op>, which: iset<nat>)
    requires forall i :: i in which ==> i < |ops| && ops[i].Put?
  {
    && (forall i :: i in which ==> ops[i].key in t)
    && (forall key :: key in t ==> exists i: nat :: IsLastPut(ops, which, key, i) && t[key] == ops[i].value)
  }

  ghost predicate IsLastPut(ops: seq<Op>, which: iset<nat>, key: Bytes, i: nat)
    requires forall j :: j in which ==> j < |ops| && ops[j].Put?
  {
    i in which && ops[i].key == key && forall j :: j in which && ops[j].key == key ==> j <= i
  }

  ghost function Survivors(max: nat, ops: seq<Op>): iset<nat> {
    iset i: nat | Survives(max, ops, i)
  }

  ghost function SavedOnes(max: nat, ops: seq<Op>): iset<nat> {
    iset i: nat | Saved(max, ops, i)
  }

  lemma FlushesPrefix(max: nat, ops: seq<Op>, op: Op, f: nat)
    requires f < |ops|
    ensures Flushes(max, ops + [op], f) == Flushes(max, ops, f)
  {
    hide Trace;
    assert (ops + [op])[..f] == ops[..f];
  }

  lemma FlushedPrefix(max: nat, ops: seq<Op>, op: Op, i: nat, j: nat)
    requires j <= |ops|
    ensures FlushedBetween(max, ops + [op], i, j) == FlushedBetween(max, ops, i, j)
  {
    hide Flushes;
    forall f: nat | i <= f < j
      ensures Flushes(max, ops + [op], f) == Flushes(max, ops, f)
    {
      FlushesPrefix(max, ops, op, f);
    }
  }

  lemma FlushedOneMore(max: nat, ops: seq<Op>, op: Op, i: nat)
    ensures FlushedBetween(max, ops + [op], i, |ops| + 1) <==>
      FlushedBetween(max, ops, i, |ops|) || (i <= |ops| && Flushes(max, ops + [op], |ops|))
  {
    hide Flushes;
    forall f: nat | i <= f < |ops|
      ensures Flushes(max, ops + [op], f) == Flushes(max, ops, f)
    {
      FlushesPrefix(max, ops, op, f);
    }
  }

  /** A reopen keeps only what was flushed; a put survives for now; nothing else changes who survives. */
  lemma SurvivorsStep(max: nat, ops: seq<Op>, op: Op)
    ensures Survivors(max, ops + [op]) == match op
      case Put(_, _) => Survivors(max, ops) + iset{|ops|}
      case Flush => Survivors(max, ops)
      case Reopen => SavedOnes(max, ops)
  {
    hide FlushedBetween;
    var more := ops + [op];
    forall i: nat | i < |ops|
      ensures Survives(max, more, i) <==> Survives(max, ops, i) && (op.Reopen? ==> FlushedBetween(max, ops, i, |ops|))
    {
      forall j: nat | j <= |ops|
        ensures FlushedBetween(max, more, i, j) == FlushedBetween(max, ops, i, j)
      {
        FlushedPrefix(max, ops, op, i, j);
      }
      if Survives(max, more, i) {
        forall j | i < j < |ops| && ops[j].Reopen?
          ensures FlushedBetween(max, ops, i, j)
        {
          assert more[j].Reopen?;
        }
        assert more[|ops|] == op;
      }
    }
  }

  lemma SavedStep(max: nat, ops: seq<Op>, op: Op)
    ensures SavedOnes(max, ops + [op]) ==
      if Flushes(max, ops + [op], |ops|) then Survivors(max, ops + [op]) else SavedOnes(max, ops)
  {
    hide Flushes, FlushedBetween;
    var more, n := ops + [op], |ops|;
    SurvivorsStep(max, ops, op);
    forall i: nat
      ensures Saved(max, more, i) <==> Survives(max, more, i) && (Flushes(max, more, n) || FlushedBetween(max, ops, i, n))
    {
      FlushedOneMore(max, ops, op, i);
    }
    NeverFlushedSince(max, ops);
    forall i: nat
      ensures i in Survivors(max, more) <==> Survives(max, more, i)
    {
    }
  }

  lemma NeverFlushedSince(max: nat, ops: seq<Op>)
    ensures !FlushedBetween(max, ops, |ops|, |ops|)
  {
  }

  lemma LastOfFrame(t: Table, ops: seq<Op>, op: Op, which: iset<nat>)
    requires (forall i :: i in which ==> i < |ops| && ops[i].Put?) && LastOf(t, ops, which)
    ensures LastOf(t, ops + [op], which)
  {
    forall key | key in t
      ensures exists i: nat :: IsLastPut(ops + [op], which, key, i) && t[key] == (ops + [op])[i].value
    {
      var i: nat :| IsLastPut(ops, which, key, i) && t[key] == ops[i].value;
      assert IsLastPut(ops + [op], which, key, i);
    }
  }

  lemma LastOfPut(t: Table, ops: seq<Op>, op: Op, which: iset<nat>)
    requires (forall i :: i in which ==> i < |ops| && ops[i].Put?) && LastOf(t, ops, which) && op.Put?
    ensures LastOf(t[op.key := op.value], ops + [op], which + iset{|ops|})
  {
    var more, n, t' := ops + [op], |ops|, t[op.key := op.value];
    forall key | key in t'
      ensures exists i: nat :: IsLastPut(more, which + iset{n}, key, i) && t'[key] == more[i].value
    {
      if key == op.key {
        assert IsLastPut(more, which + iset{n}, key, n);
      } else {
        var i: nat :| IsLastPut(ops, which, key, i) && t[key] == ops[i].value;
        assert IsLastPut(more, which + iset{n}, key, i);
      }
    }
  }

  /** What lookups answer after any run is, for each key, its last put that no reopen lost. */
  lemma {:induction false} LastSurvivingPut(max: nat, ops: seq<Op>)
    ensures var s := Trace(max, ops);
      LastOf(s.durable + s.pending, ops, Survivors(max, ops)) && LastOf(s.durable, ops, SavedOnes(max, ops))
    decreases |ops|
  {
    hide Flushes, LastOf, Survives, Saved;
    if ops == [] {
      NothingPut(max);
    } else {
      var n := |ops| - 1;
      var front, op := ops[..n], ops[n];
      assert ops == front + [op];
      LastSurvivingPut(max, front);
      SurvivorsStep(max, front, op);
      SavedStep(max, front, op);
      SurvivorsArePuts(max, front);
      LastSurvivingStep(max, front, op);
    }
  }

  lemma NothingPut(max: nat)
    ensures LastOf(map[] + map[], [], Survivors(max, [])) && LastOf(map[], [], SavedOnes(max, []))
  {
  }

  lemma SurvivorsArePuts(max: nat, ops: seq<Op>)
    ensures forall i :: i in Survivors(max, ops) ==> i < |ops| && ops[i].Put?
    ensures forall i :: i in SavedOnes(max, ops) ==> i < |ops| && ops[i].Put?
  {
  }

  lemma LiveAfterFlush(s: State)
    ensures AfterFlush(s).durable + AfterFlush(s).pending == s.durable + s.pending
  {
  }

  lemma LiveAfterPut(s: State, max: nat, key: Bytes, value: Bytes)
    ensures var s' := AfterPut(s, max, key, value);
      s'.durable + s'.pending == (s.durable + s.pending)[key := value]
  {
    hide AfterFlush;
    LiveAfterFlush(s.(pending := s.pending[key := value]));
    PutOnTop(s.durable, s.pending, key, value);
  }

  lemma PutOnTop(a: Table, b: Table, key: Bytes, value: Bytes)
    ensures a + b[key := value] == (a + b)[key := value]
  {
  }

  lemma LiveAfter(s: State, max: nat, op: Op)
    ensures var s' := After(s, max, op);
      s'.durable + s'.pending == match op
        case Put(key, value) => (s.durable + s.pending)[key := value]
        case Flush => s.durable + s.pending
        case Reopen => s.durable
  {
    hide AfterPut, AfterFlush;
    match op {
      case Put(key, value) => LiveAfterPut(s, max, key, value);
      case Flush => LiveAfterFlush(s);
      case Reopen => assert s.durable + map[] == s.durable;
    }
  }

  lemma DurableAfter(max: nat, ops: seq<Op>, op: Op)
    ensures var s' := Trace(max, ops + [op]);
      s'.durable == if Flushes(max, ops + [op], |ops|) then s'.durable + s'.pending else Trace(max, ops).durable
  {
    assert (ops + [op])[..|ops|] == ops;
  }

  lemma LastSurvivingStep(max: nat, ops: seq<Op>, op: Op)
    requires var s := Trace(max, ops);
      LastOf(s.durable + s.pending, ops, Survivors(max, ops)) && LastOf(s.durable, ops, SavedOnes(max, ops))
    ensures var s := Trace(max, ops + [op]);
      LastOf(s.durable + s.pending, ops + [op], Survivors(max, ops + [op]))
      && LastOf(s.durable, ops + [op], SavedOnes(max, ops + [op]))
  {
    hide LastOf, Survivors, SavedOnes, Flushes, After;
    var s, more := Trace(max, ops), ops + [op];
    assert more[..|ops|] == ops && more[|ops|] == op;
    var s' := Trace(max, more);
    assert s' == After(s, max, op);
    SurvivorsStep(max, ops, op);
    SavedStep(max, ops, op);
    SurvivorsArePuts(max, ops);
    LastOfFrame(s.durable, ops, op, SavedOnes(max, ops));
    if op.Put? {
      LastOfPut(s.durable + s.pending, ops, op, Survivors(max, ops));
    } else if op.Flush? {
      LastOfFrame(s.durable + s.pending, ops, op, Survivors(max, ops));
    }
    LiveAfter(s, max, op);
    DurableAfter(max, ops, op);
  }

  /******* Running the store *******/

  /** Reading a directory: its entries in whatever order they come. */
  method ListDirectory(files: map<u32, Bytes>) returns (listing: seq<u32>)
    ensures IsListing(listing, files.Keys)
  {
    var todo: set<u32> := files.Keys;
    listing := [];
    while todo != {}
      invariant todo <= files.Keys
      invariant forall id :: id in listing <==> id in files && id !in todo
      invariant forall i, j :: 0 <= i < j < |listing| ==> listing[i] != listing[j]
    {
      var id :| id in todo;
      listing, todo := listing + [id], todo - {id};
    }
  }

  /** The run at position `i` is the newest to hold the key. */
  ghost predicate NewestHolder(ids: seq<u32>, contents: map<u32, Table>, key: Bytes, i: nat) {
    && i < |ids| && key in TableOf(contents, ids[i])
    && forall j :: i < j < |ids| ==> key !in TableOf(contents, ids[j])
  }

  /** `id` is the greatest run id to hold the key. */
  ghost predicate GreatestHolder(ids: seq<u32>, contents: map<u32, Table>, key: Bytes, id: u32) {
    && id in ids && key in TableOf(contents, id)
    && forall k :: k in ids && k > id ==> key !in TableOf(contents, k)
  }

  /** The newest run to hold the key and the run with the greatest id to hold it say the same. */
  ghost predicate HoldersAgree(ids: seq<u32>, contents: map<u32, Table>, key: Bytes) {
    forall i: nat, id :: NewestHolder(ids, contents, key, i) && GreatestHolder(ids, contents, key, id) ==>
      TableOf(contents, ids[i])[key] == TableOf(contents, id)[key]
  }

  ghost predicate NewestIsGreatest(ids: seq<u32>, contents: map<u32, Table>) {
    forall key :: HoldersAgree(ids, contents, key)
  }

  /** Lookups answer from the newest run to hold the key. */
  lemma {:induction false} NewestAnswers(ids: seq<u32>, contents: map<u32, Table>, key: Bytes)
    ensures key in Overlay(ids, contents) <==> exists i: nat :: NewestHolder(ids, contents, key, i)
    ensures forall i: nat :: NewestHolder(ids, contents, key, i) ==>
      Lookup(Overlay(ids, contents), key) == Some(TableOf(contents, ids[i])[key])
  {
    hide TableOf;
    if ids != [] {
      var n := |ids| - 1;
      NewestAnswers(ids[..n], contents, key);
      if key in TableOf(contents, ids[n]) {
        assert NewestHolder(ids, contents, key, n);
      }
      forall i: nat | i < n && key !in TableOf(contents, ids[n])
        ensures NewestHolder(ids, contents, key, i) <==> NewestHolder(ids[..n], contents, key, i)
      {
      }
    }
  }

  /** In id order the newest run is the one with the greatest id. */
  lemma NewestOfIncreasing(ids: seq<u32>, sorted: seq<u32>, contents: map<u32, Table>, key: Bytes, i: nat)
    requires Increasing(sorted) && SameIds(ids, sorted) && NewestHolder(sorted, contents, key, i)
    ensures GreatestHolder(ids, contents, key, sorted[i])
  {
    hide TableOf;
    assert sorted[i] in ids;
    forall k | k in ids && k > sorted[i]
      ensures key !in TableOf(contents, k)
    {
      var j :| 0 <= j < |sorted| && sorted[j] == k;
    }
  }

  /** Putting the runs in id order keeps every answer if and only if, for every key, the newest run to hold it says what
      the one with the greatest id does. */
  lemma SortedKeepsAnswersIff(ids: seq<u32>, sorted: seq<u32>, contents: map<u32, Table>)
    requires Increasing(sorted) && SameIds(ids, sorted)
    ensures Overlay(ids, contents) == Overlay(sorted, contents) <==> NewestIsGreatest(ids, contents)
  {
    hide Overlay, TableOf, Increasing, HoldersAgree;
    var before, after := Overlay(ids, contents), Overlay(sorted, contents);
    forall key
      ensures Lookup(before, key) == Lookup(after, key) <==> HoldersAgree(ids, contents, key)
    {
      KeyKeptIff(ids, sorted, contents, key);
    }
    SameTables(before, after);
  }

  lemma KeyKeptIff(ids: seq<u32>, sorted: seq<u32>, contents: map<u32, Table>, key: Bytes)
    requires Increasing(sorted) && SameIds(ids, sorted)
    ensures Lookup(Overlay(ids, contents), key) == Lookup(Overlay(sorted, contents), key)
      <==> HoldersAgree(ids, contents, key)
  {
    hide Overlay, TableOf, Increasing;
    NewestAnswers(ids, contents, key);
    NewestAnswers(sorted, contents, key);
    forall j: nat | NewestHolder(sorted, contents, key, j)
      ensures GreatestHolder(ids, contents, key, sorted[j])
      ensures forall id :: GreatestHolder(ids, contents, key, id) ==> id == sorted[j]
    {
      NewestOfIncreasing(ids, sorted, contents, key, j);
    }
    forall i: nat | NewestHolder(ids, contents, key, i)
      ensures exists j: nat :: NewestHolder(sorted, contents, key, j)
    {
      assert ids[i] in sorted;
      var k :| 0 <= k < |sorted| && sorted[k] == ids[i];
      var _ := LastHolder(sorted, contents, key, k);
    }
    forall j: nat | NewestHolder(sorted, contents, key, j)
      ensures exists i: nat :: NewestHolder(ids, contents, key, i)
    {
      assert sorted[j] in ids;
      var k :| 0 <= k < |ids| && ids[k] == sorted[j];
      var _ := LastHolder(ids, contents, key, k);
    }
  }

  /** If some run holds the key, one of them is the newest. */
  lemma {:induction false} LastHolder(ids: seq<u32>, contents: map<u32, Table>, key: Bytes, k: nat) returns (i: nat)
    requires k < |ids| && key in TableOf(contents, ids[k])
    ensures NewestHolder(ids, contents, key, i)
    decreases |ids| - k
  {
    if j :| k < j < |ids| && key in TableOf(contents, ids[j]) {
      i := LastHolder(ids, contents, key, j);
    } else {
      i := k;
    }
  }

  /** A list in id order, possibly with repetitions, as a store keeps it until the run counter wraps. */
  lemma OrderedKeepsAnswers(ids: seq<u32>, contents: map<u32, Table>)
    requires NonDecreasing(ids)
    ensures NewestIsGreatest(ids, contents)
  {
    hide TableOf;
    forall key, i: nat, id | NewestHolder(ids, contents, key, i) && GreatestHolder(ids, contents, key, id)
      ensures ids[i] == id
    {
      var j :| 0 <= j < |ids| && ids[j] == id;
    }
  }

  lemma OnTopAgain(a: Table, b: Table, c: Table)
    ensures (a + b) + c == a + (b + c)
  {
  }

  lemma {:induction false} OverlayConcat(a: seq<u32>, b: seq<u32>, contents: map<u32, Table>)
    ensures Overlay(a + b, contents) == Overlay(a, contents) + Overlay(b, contents)
    decreases |b|
  {
    hide *;
    if b == [] {
      assert a + b == a;
      NoRunsNoAnswers(contents, 0);
      NothingAdded(Overlay(a, contents));
    } else {
      var n := |b| - 1;
      OverlayConcat(a, b[..n], contents);
      assert b == b[..n] + [b[n]] && a + b == (a + b[..n]) + [b[n]];
      LastOverlay(a + b[..n], contents, b[n]);
      LastOverlay(b[..n], contents, b[n]);
      OnTopAgain(Overlay(a, contents), Overlay(b[..n], contents), TableOf(contents, b[n]));
    }
  }

  /** When the counter has wrapped, runs written since have ids below those written before. Reopening puts them under the
      older ones, and keeps every answer if and only if the two agree on each key both hold. */
  lemma WrappedKeepsAnswersIff(older: seq<u32>, newer: seq<u32>, sorted: seq<u32>, contents: map<u32, Table>)
    requires Increasing(older) && Increasing(newer)
    requires forall i, j :: 0 <= i < |newer| && 0 <= j < |older| ==> newer[i] < older[j]
    requires Increasing(sorted) && SameIds(older + newer, sorted)
    ensures Overlay(older + newer, contents) == Overlay(sorted, contents)
      <==> forall key :: key in Overlay(older, contents) && key in Overlay(newer, contents) ==>
             Overlay(older, contents)[key] == Overlay(newer, contents)[key]
  {
    hide Overlay;
    assert Increasing(newer + older);
    IncreasingIsUnique(newer + older, sorted);
    OverlayConcat(older, newer, contents);
    OverlayConcat(newer, older, contents);
    var a, b := Overlay(older, contents), Overlay(newer, contents);
    SameTables(a + b, b + a);
  }

  function Inserted(ids: seq<u32>, id: u32): seq<u32> {
    if ids == [] || ids[|ids| - 1] < id then ids + [id]
    else if ids[|ids| - 1] == id then ids
    else Inserted(ids[..|ids| - 1], id) + [ids[|ids| - 1]]
  }

  /** The ids in increasing order, each once. */
  function InIdOrder(ids: seq<u32>): seq<u32> {
    if ids == [] then [] else Inserted(InIdOrder(ids[..|ids| - 1]), ids[|ids| - 1])
  }

  lemma {:induction false} InsertedOk(ids: seq<u32>, id: u32)
    requires Increasing(ids)
    ensures Increasing(Inserted(ids, id)) && forall k :: k in Inserted(ids, id) <==> k in ids || k == id
    decreases |ids|
  {
    if ids != [] {
      var n := |ids| - 1;
      assert ids == ids[..n] + [ids[n]];
      if ids[n] > id {
        InsertedOk(ids[..n], id);
        AppendGreater(Inserted(ids[..n], id), ids[n]);
      } else if ids[n] < id {
        AppendGreater(ids, id);
      }
    }
  }

  lemma AppendGreater(ids: seq<u32>, id: u32)
    requires Increasing(ids) && forall k :: k in ids ==> k < id
    ensures Increasing(ids + [id]) && forall k :: k in ids + [id] <==> k in ids || k == id
  {
    assert forall i :: 0 <= i < |ids| ==> ids[i] in ids;
  }

  lemma {:induction false} InIdOrderOk(ids: seq<u32>)
    ensures Increasing(InIdOrder(ids)) && SameIds(ids, InIdOrder(ids))
    decreases |ids|
  {
    hide Inserted;
    if ids != [] {
      var n := |ids| - 1;
      InIdOrderOk(ids[..n]);
      InsertedOk(InIdOrder(ids[..n]), ids[n]);
      assert ids == ids[..n] + [ids[n]];
    }
  }

  lemma InIdOrderIs(ids: seq<u32>, sorted: seq<u32>)
    requires Increasing(sorted) && SameIds(ids, sorted)
    ensures InIdOrder(ids) == sorted
  {
    hide Increasing;
    InIdOrderOk(ids);
    IncreasingIsUnique(InIdOrder(ids), sorted);
  }

  /** Opening the directory again: the same runs in id order, nothing in memory. What was flushed is answered as before
      exactly when the newest runs have the greatest ids, key by key; in order they do. */
  method Reopened(lsm: SimpleLsm) returns (again: SimpleLsm)
    requires lsm.Listed()
    ensures fresh(again) && again.Listed() && again.files == lsm.files && again.contents == lsm.contents
    ensures again.crc == lsm.crc && again.targetBlockSize == lsm.targetBlockSize
    ensures again.memtableMaxEntries == lsm.memtableMaxEntries
    ensures again.memtable == map[] && again.level0Runs == InIdOrder(lsm.level0Runs)
    ensures again.nextRunId == AfterLast(again.level0Runs) && Increasing(again.level0Runs)
    ensures (lsm.RunsFollow() ==> again.RunsFollow())
    ensures lsm.RunsFollow() ==>
      (again.Durable() == lsm.Durable() <==> NewestIsGreatest(lsm.level0Runs, lsm.contents))
    ensures lsm.RunsFollow() && NonDecreasing(lsm.level0Runs) ==> View(again) == State(lsm.Durable(), map[])
    ensures lsm.InOrder() && !lsm.Exhausted() && lsm.nextRunId >= 1 ==>
      again.InOrder() && !again.Exhausted() && 1 <= again.nextRunId <= lsm.nextRunId
  {
    hide *;
    DirectoryIds(lsm);
    var listing := ListDirectory(lsm.files);
    again := new SimpleLsm.Open(lsm.crc, lsm.targetBlockSize, lsm.memtableMaxEntries, lsm.files, listing, lsm.contents);
    DirectoryIds(again);
    SameWhenOrdered(lsm, again);
    NextIdAgain(lsm, again);
    SameRuns(lsm, again);
  }

  lemma SameRuns(lsm: SimpleLsm, again: SimpleLsm)
    requires lsm.Listed() && again.Listed() && Increasing(again.level0Runs) && again.files == lsm.files
    ensures again.level0Runs == InIdOrder(lsm.level0Runs)
  {
    assert SameIds(lsm.level0Runs, again.level0Runs);
    InIdOrderIs(lsm.level0Runs, again.level0Runs);
  }

  lemma DirectoryIds(lsm: SimpleLsm)
    requires lsm.Listed()
    ensures lsm.RunsFollow() <==> DirectoryHolds(lsm.crc, lsm.files, lsm.contents)
  {
    hide DirectoryHolds;
  }

  lemma SameWhenOrdered(lsm: SimpleLsm, again: SimpleLsm)
    requires lsm.Listed() && again.Listed() && Increasing(again.level0Runs) && again.memtable == map[]
    requires again.crc == lsm.crc && again.files == lsm.files && again.contents == lsm.contents
    ensures lsm.RunsFollow() ==>
      && again.RunsFollow()
      && (again.Durable() == lsm.Durable() <==> NewestIsGreatest(lsm.level0Runs, lsm.contents))
      && (NonDecreasing(lsm.level0Runs) ==> View(again) == State(lsm.Durable(), map[]))
  {
    hide Holds, Overlay, NonDecreasing, Increasing, NewestIsGreatest;
    assert SameIds(lsm.level0Runs, again.level0Runs);
    if lsm.RunsFollow() {
      SortedKeepsAnswersIff(lsm.level0Runs, again.level0Runs, lsm.contents);
      if NonDecreasing(lsm.level0Runs) {
        OrderedKeepsAnswers(lsm.level0Runs, lsm.contents);
      }
    }
  }

  lemma NextIdAgain(lsm: SimpleLsm, again: SimpleLsm)
    requires lsm.Listed() && again.Listed() && Increasing(again.level0Runs) && again.files == lsm.files
    requires U32 - 1 !in lsm.files ==> again.InOrder() && !again.Exhausted()
    requires again.nextRunId == AfterLast(again.level0Runs)
    ensures lsm.InOrder() && !lsm.Exhausted() && lsm.nextRunId >= 1 ==>
      again.InOrder() && !again.Exhausted() && 1 <= again.nextRunId <= lsm.nextRunId
  {
    if lsm.InOrder() && !lsm.Exhausted() && lsm.nextRunId >= 1 {
      assert SameIds(lsm.level0Runs, again.level0Runs);
      IncreasingIsUnique(again.level0Runs, lsm.level0Runs);
      BelowNext(lsm);
      if again.level0Runs != [] {
        assert lsm.level0Runs[|lsm.level0Runs| - 1] < lsm.nextRunId;
      }
    }
  }

  lemma BelowNext(lsm: SimpleLsm)
    requires lsm.Listed() && lsm.InOrder() && !lsm.Exhausted()
    ensures U32 - 1 !in lsm.files
  {
  }

  /******* Runs of operations, run by run *******/

  /** What is on disk, run by run, and what is only in memory. */
  datatype Shelf = Shelf(runs: seq<u32>, contents: map<u32, Table>, next: u32, pending: Table)

  ghost function ShelfOf(lsm: SimpleLsm): Shelf
    reads lsm
  {
    Shelf(lsm.level0Runs, lsm.contents, lsm.nextRunId, lsm.memtable)
  }

  function Shelved(s: Shelf): Shelf {
    if s.pending == map[] then s
    else Shelf(s.runs + [s.next], s.contents[s.next := s.pending], NextId(s.next), map[])
  }

  /** Whether the operation writes the memtable `t` out. */
  predicate Writes(max: nat, op: Op, t: Table) {
    op.Flush? || (op.Put? && max > 0 && |t| >= max)
  }

  function Taken(s: Shelf, op: Op): Shelf {
    if op.Put? then s.(pending := s.pending[op.key := op.value]) else s
  }

  function ShelfAfter(s: Shelf, max: nat, op: Op): Shelf {
    if op.Reopen? then Shelf(InIdOrder(s.runs), s.contents, AfterLast(InIdOrder(s.runs)), map[])
    else
      var taken := Taken(s, op);
      if Writes(max, op, taken.pending) then Shelved(taken) else taken
  }

  function ShelfTrace(max: nat, ops: seq<Op>): Shelf {
    if ops == [] then Shelf([], map[], 1, map[])
    else ShelfAfter(ShelfTrace(max, ops[..|ops| - 1]), max, ops[|ops| - 1])
  }

  ghost function StateOf(s: Shelf): State {
    State(Overlay(s.runs, s.contents), s.pending)
  }

  /** The operation overwrites no run that is still needed, and brings no older run above a newer one it contradicts. */
  ghost predicate Harmless(s: Shelf, max: nat, op: Op) {
    if op.Reopen? then NewestIsGreatest(s.runs, s.contents)
    else
      var t := Taken(s, op).pending;
      Writes(max, op, t) && t != map[] ==> Dispensable(s.runs, s.contents, s.next, t)
  }

  /** That is exactly when it does to the answers what it should. */
  lemma HarmlessIff(s: Shelf, max: nat, op: Op)
    ensures Harmless(s, max, op) <==> StateOf(ShelfAfter(s, max, op)) == After(StateOf(s), max, op)
    ensures ShelfAfter(s, max, op).pending == After(StateOf(s), max, op).pending
  {
    hide Overlay, Dispensable, NewestIsGreatest;
    if op.Reopen? {
      InIdOrderOk(s.runs);
      SortedKeepsAnswersIff(s.runs, InIdOrder(s.runs), s.contents);
    } else {
      var t := Taken(s, op).pending;
      NewRunKeepsAnswersIff(s.runs, s.contents, s.next, t);
      NothingAdded(Overlay(s.runs, s.contents));
    }
  }

  ghost predicate AllHarmless(max: nat, ops: seq<Op>) {
    forall i :: 0 <= i < |ops| ==> Harmless(ShelfTrace(max, ops[..i]), max, ops[i])
  }

  /** While every operation is harmless, the runs answer as the run says; what is in memory always does. */
  lemma {:induction false} ShelfIsTrace(max: nat, ops: seq<Op>)
    ensures ShelfTrace(max, ops).pending == Trace(max, ops).pending
    ensures AllHarmless(max, ops) ==> StateOf(ShelfTrace(max, ops)) == Trace(max, ops)
    decreases |ops|
  {
    hide ShelfAfter, After, Harmless;
    if ops != [] {
      var n := |ops| - 1;
      var init := ops[..n];
      ShelfIsTrace(max, init);
      HarmlessIff(ShelfTrace(max, init), max, ops[n]);
      SamePending(StateOf(ShelfTrace(max, init)), Trace(max, init), max, ops[n]);
      if AllHarmless(max, ops) {
        assert forall i :: 0 <= i < n ==> init[..i] == ops[..i];
        assert AllHarmless(max, init);
        assert Harmless(ShelfTrace(max, ops[..n]), max, ops[n]);
      }
    }
  }

  lemma SamePending(a: State, b: State, max: nat, op: Op)
    requires a.pending == b.pending
    ensures After(a, max, op).pending == After(b, max, op).pending
  {
  }

  /** Run ids in order, none used up, and at most one more for each operation. */
  ghost predicate Fresh(s: Shelf, n: nat) {
    IdsInOrder(s.runs, s.next) && s.next !in s.runs && 1 <= s.next <= n + 1
  }

  /** Fewer operations than there are run ids do no harm. */
  lemma {:induction false} ShortRunsAreHarmless(max: nat, ops: seq<Op>)
    requires |ops| < U32 - 1
    ensures Fresh(ShelfTrace(max, ops), |ops|) && AllHarmless(max, ops)
    decreases |ops|
  {
    hide ShelfAfter, Harmless, Fresh;
    if ops == [] {
      NothingShelved(max);
    } else {
      var n := |ops| - 1;
      ShortRunsAreHarmless(max, ops[..n]);
      FreshStep(ShelfTrace(max, ops[..n]), max, ops[n], n);
      forall i | 0 <= i < |ops|
        ensures Harmless(ShelfTrace(max, ops[..i]), max, ops[i])
      {
        if i < n {
          assert ops[..n][..i] == ops[..i] && ops[..n][i] == ops[i];
        }
      }
    }
  }

  lemma NothingShelved(max: nat)
    ensures Fresh(ShelfTrace(max, []), 0)
  {
  }

  lemma FreshStep(s: Shelf, max: nat, op: Op, n: nat)
    requires Fresh(s, n) && n + 1 < U32 - 1
    ensures Harmless(s, max, op) && Fresh(ShelfAfter(s, max, op), n + 1)
  {
    hide Overlay, Dispensable, NewestIsGreatest, InIdOrder;
    StillFresh(s.runs, s.next);
    if op.Reopen? {
      OrderedKeepsAnswers(s.runs, s.contents);
      InIdOrderIs(s.runs, s.runs);
      FreshAgain(s.runs, s.next);
    } else {
      FreshRunKeepsAnswers(s.runs, s.contents, s.next, Taken(s, op).pending);
      IdAdded(s.runs, s.next);
    }
  }

  lemma FreshAgain(ids: seq<u32>, next: u32)
    requires IdsInOrder(ids, next) && next !in ids && 1 <= next < U32 - 1
    ensures IdsInOrder(ids, AfterLast(ids)) && AfterLast(ids) !in ids && 1 <= AfterLast(ids) <= next
  {
  }

  lemma StillFresh(ids: seq<u32>, next: u32)
    requires IdsInOrder(ids, next) && next !in ids && next < U32 - 1
    ensures NextId(next) == next + 1 && NextId(next) !in ids + [next] && NonDecreasing(ids) && Increasing(ids)
  {
    forall i | 0 <= i < |ids| + 1
      ensures (ids + [next])[i] != next + 1
    {
    }
  }

  /** Carries out one operation, whatever state the run ids are in. */
  method Apply(lsm: SimpleLsm, op: Op, now: u64) returns (r: Outcome<SimpleLsm>)
    requires lsm.RunsFollow()
    modifies lsm
    ensures r.Err? ==> r.error == TooLong && TableWeight(old(lsm.memtable)) + OpWeight(op) + RUN_OVERHEAD >= U64
    ensures r.Ok? ==>
      && (r.value == lsm || fresh(r.value)) && r.value.RunsFollow()
      && r.value.memtableMaxEntries == lsm.memtableMaxEntries
      && ShelfOf(r.value) == ShelfAfter(old(ShelfOf(lsm)), lsm.memtableMaxEntries, op)
  {
    hide *;
    FollowsIsListed(lsm);
    ShelfOfIs(lsm);
    ShelfAfterIs(ShelfOf(lsm), lsm, op);
    if op.Put? {
      WeightInserted(lsm.memtable, op.key, op.value);
      var done := lsm.Put(op.key, op.value, now);
      if done.Err? {
        return Err(done.error);
      }
      ShelfOfIs(lsm);
      return Ok(lsm);
    } else if op.Flush? {
      var done := lsm.FlushMemtable(now);
      if done.Err? {
        return Err(done.error);
      }
      ShelfOfIs(lsm);
      return Ok(lsm);
    } else {
      var again := Reopened(lsm);
      ShelfOfIs(again);
      return Ok(again);
    }
  }

  lemma FollowsIsListed(lsm: SimpleLsm)
    requires lsm.RunsFollow()
    ensures lsm.Listed()
  {
  }

  lemma ShelfOfIs(lsm: SimpleLsm)
    ensures ShelfOf(lsm) == Shelf(lsm.level0Runs, lsm.contents, lsm.nextRunId, lsm.memtable)
  {
  }

  lemma ShelfAfterIs(s: Shelf, lsm: SimpleLsm, op: Op)
    ensures ShelfAfter(s, lsm.memtableMaxEntries, op) == match op
      case Put(key, value) =>
        var t := s.pending[key := value];
        if lsm.Full(t) then Shelf(s.runs + [s.next], s.contents[s.next := t], NextId(s.next), map[]) else s.(pending := t)
      case Flush =>
        if s.pending == map[] then s
        else Shelf(s.runs + [s.next], s.contents[s.next := s.pending], NextId(s.next), map[])
      case Reopen => Shelf(InIdOrder(s.runs), s.contents, AfterLast(InIdOrder(s.runs)), map[])
    ensures OpWeight(op) == if op.Put? then EntryWeight(RunEntry(op.key, op.value)) else 0
  {
    if op.Put? {
      assert op.key in s.pending[op.key := op.value];
    }
  }

  function OpWeight(op: Op): nat {
    if op.Put? then EntryWeight(RunEntry(op.key, op.value)) else 0
  }

  /** What the puts of a run can add to run files. */
  function OpsWeight(ops: seq<Op>): nat {
    if ops == [] then 0 else OpsWeight(ops[..|ops| - 1]) + OpWeight(ops[|ops| - 1])
  }

  lemma PendingWeight(s: State, max: nat, op: Op)
    ensures TableWeight(After(s, max, op).pending) <= TableWeight(s.pending) + OpWeight(op)
  {
    hide TableWeight, EntryWeight;
    EmptyWeighsNothing();
    if op.Put? {
      WeightInserted(s.pending, op.key, op.value);
    }
  }

  lemma {:induction false} TraceWeight(max: nat, ops: seq<Op>)
    ensures TableWeight(Trace(max, ops).pending) <= OpsWeight(ops)
    decreases |ops|
  {
    hide TableWeight, OpWeight, After;
    EmptyWeighsNothing();
    if ops != [] {
      TraceWeight(max, ops[..|ops| - 1]);
      PendingWeight(Trace(max, ops[..|ops| - 1]), max, ops[|ops| - 1]);
    }
  }

  lemma {:induction false} WeightsGrow(ops: seq<Op>, i: nat)
    requires i <= |ops|
    ensures OpsWeight(ops[..i]) <= OpsWeight(ops)
    decreases |ops|
  {
    if i < |ops| {
      WeightsGrow(ops[..|ops| - 1], i);
      assert ops[..|ops| - 1][..i] == ops[..i];
    } else {
      assert ops[..i] == ops;
    }
  }

  /** Runs any number of operations on a store that starts empty; each reopen reads the directory in an arbitrary order. The
      run fails only if its puts add up to a run file of 2^64 bytes. As long as every operation is harmless, as they all
      are while run ids last, lookups answer from what the run says. */
  method Execute(crc: Crc, targetBlockSize: nat, max: nat, ops: seq<Op>, clock: nat -> u64) returns (r: Outcome<SimpleLsm>)
    ensures r.Ok? ==> fresh(r.value) && r.value.RunsFollow() && ShelfOf(r.value) == ShelfTrace(max, ops)
    ensures r.Ok? && AllHarmless(max, ops) ==> View(r.value) == Trace(max, ops)
    ensures |ops| < U32 - 1 ==> AllHarmless(max, ops)
    ensures r.Err? ==> r.error == TooLong && OpsWeight(ops) + RUN_OVERHEAD >= U64
  {
    hide *;
    if |ops| < U32 - 1 {
      ShortRunsAreHarmless(max, ops);
    }
    NoFiles();
    var lsm := new SimpleLsm.Open(crc, targetBlockSize, max, map[], [], map[]);
    NothingYet(lsm);
    assert ops[..0] == [];
    for i := 0 to |ops|
      invariant fresh(lsm) && lsm.RunsFollow() && lsm.memtableMaxEntries == max
      invariant ShelfOf(lsm) == ShelfTrace(max, ops[..i])
    {
      ShelfTraceStep(max, ops, i);
      ViewIs(lsm);
      var next := Apply(lsm, ops[i], clock(i));
      if next.Err? {
        return Err(next.error);
      }
      lsm := next.value;
    }
    assert ops[..|ops|] == ops;
    ShelfIsTrace(max, ops);
    ViewIs(lsm);
    return Ok(lsm);
  }

  lemma ShelfTraceStep(max: nat, ops: seq<Op>, i: nat)
    requires i < |ops|
    ensures ShelfTrace(max, ops[..i + 1]) == ShelfAfter(ShelfTrace(max, ops[..i]), max, ops[i])
    ensures TableWeight(ShelfTrace(max, ops[..i]).pending) + OpWeight(ops[i]) <= OpsWeight(ops)
  {
    hide ShelfAfter, TableWeight, OpWeight, Trace;
    assert ops[..i + 1][..i] == ops[..i] && ops[..i + 1][i] == ops[i];
    ShelfIsTrace(max, ops[..i]);
    TraceWeight(max, ops[..i]);
    WeightsGrow(ops, i + 1);
  }

  lemma ViewIs(lsm: SimpleLsm)
    requires lsm.RunsFollow()
    ensures View(lsm) == StateOf(ShelfOf(lsm)) && lsm.Live() == View(lsm).durable + View(lsm).pending && lsm.Listed()
    ensures ShelfOf(lsm).pending == lsm.memtable
  {
    hide DirectoryHolds, Overlay;
  }

  lemma NoFiles()
    ensures var none: map<u32, Bytes> := map[]; IsListing([], none.Keys)
  {
  }

  lemma NothingYet(lsm: SimpleLsm)
    requires lsm.Listed() && lsm.files == map[] && lsm.contents == map[] && lsm.memtable == map[]
    requires lsm.nextRunId == AfterLast(lsm.level0Runs)
    ensures lsm.RunsFollow() && forall max :: ShelfOf(lsm) == ShelfTrace(max, [])
  {
    NoRuns(lsm.level0Runs, lsm.files.Keys);
  }

  lemma NoRuns(ids: seq<u32>, all: set<u32>)
    requires all == {}
    ensures AreTheRuns(ids, all) ==> ids == []
  {
    if ids != [] {
      assert ids[0] !in all;
    }
  }

  lemma WhatLastOfSays(t: Table, max: nat, ops: seq<Op>, key: Bytes)
    requires LastOf(t, ops, Survivors(max, ops))
    ensures key !in t ==> forall i: nat :: Survives(max, ops, i) ==> ops[i].key != key
    ensures key in t ==> exists i: nat :: IsLastPut(ops, Survivors(max, ops), key, i) && ops[i].value == t[key]
  {
    hide FlushedBetween;
    forall i: nat | Survives(max, ops, i)
      ensures ops[i].key in t
    {
      assert i in Survivors(max, ops);
    }
  }

  /** A lookup after any run answers from the newest run that has the key. As long as every operation was harmless, as they
      all are while run ids last, that is the last put of the key that no reopen lost, and nothing if there is none. The
      lookup succeeds unless the puts add up to a run file of 2^64 bytes. */
  method GetAfterRun(crc: Crc, targetBlockSize: nat, max: nat, ops: seq<Op>, clock: nat -> u64, key: Bytes)
    returns (r: Outcome<Option<Bytes>>)
    ensures r.Err? ==> r.error == TooLong && OpsWeight(ops) + RUN_OVERHEAD >= U64
    ensures r.Ok? ==> var s := StateOf(ShelfTrace(max, ops)); r.value == Lookup(s.durable + s.pending, key)
    ensures r.Ok? && r.value.None? && AllHarmless(max, ops) ==>
      forall i: nat :: Survives(max, ops, i) ==> ops[i].key != key
    ensures r.Ok? && r.value.Some? && AllHarmless(max, ops) ==>
      exists i: nat :: IsLastPut(ops, Survivors(max, ops), key, i) && ops[i].value == r.value.value
    ensures |ops| < U32 - 1 ==> AllHarmless(max, ops)
  {
    hide Trace, ShelfTrace, Survives, Overlay, DirectoryHolds, AreTheRuns, LastOf, OpsWeight, AllHarmless;
    var lsm :- Execute(crc, targetBlockSize, max, ops, clock);
    ViewIs(lsm);
    r := lsm.Get(key);
    ghost var t := lsm.Live();
    LastSurvivingPut(max, ops);
    if AllHarmless(max, ops) {
      assert t == Trace(max, ops).durable + Trace(max, ops).pending;
      WhatLastOfSays(t, max, ops, key);
    }
  }

  /** The second reuse at work: a directory whose newest run has the last id but one, two puts, each flushed. The first
      flush takes the last id, the second takes it again, and the first put is gone. */
  method ReusedIdLosesAPut(crc: Crc, targetBlockSize: nat, now: u64)
    returns (before: Outcome<Option<Bytes>>, after: Outcome<Option<Bytes>>)
    ensures before == Ok(Some([1])) && after == Ok(None)
  {
    hide *;
    var id: u32, last: u32 := 0xFFFF_FFFE, 0xFFFF_FFFF;
    SaturatedNext();
    var lsm := OpenOneRun(crc, id, [9], targetBlockSize, now);
    PutAndFlush(lsm, [1], [1], now);
    NewestHas(lsm, [id], last, [1], [1]);
    before := lsm.Get([1]);
    PutAndFlush(lsm, [2], [2], now);
    assert [id] + [last] + [last] == [id, last, last];
    OnlyOldest(lsm, id, last);
    after := lsm.Get([1]);
  }

  /** A counter that wrapped: a directory whose newest run has the last id, opened, then a put flushed. The run is numbered
      0, and after reopening the older run answers instead. */
  method WrappedIdLosesAPut(crc: Crc, targetBlockSize: nat, now: u64)
    returns (before: Outcome<Option<Bytes>>, after: Outcome<Option<Bytes>>)
    ensures before == Ok(Some([2])) && after == Ok(Some([1]))
  {
    hide *;
    var first: u32, last: u32 := 0, 0xFFFF_FFFF;
    SaturatedNext();
    var lsm := OpenOneRun(crc, last, [1], targetBlockSize, now);
    PutAndFlush(lsm, [1], [2], now);
    NewestHas(lsm, [last], first, [1], [2]);
    before := lsm.Get([1]);
    var again := Reopened(lsm);
    InOrderAgain(lsm, again, first, last);
    NewestHas(again, [first], last, [1], [1]);
    after := again.Get([1]);
  }

  /** Opens a directory with one run, which maps `key` to itself. */
  method OpenOneRun(crc: Crc, id: u32, key: Bytes, targetBlockSize: nat, now: u64) returns (lsm: SimpleLsm)
    requires |key| == 1
    ensures fresh(lsm) && lsm.RunsFollow() && lsm.memtable == map[] && lsm.memtableMaxEntries == 0
    ensures lsm.level0Runs == [id] && lsm.nextRunId == AfterLast([id]) && lsm.contents == map[id := map[key := key]]
  {
    hide *;
    var file := WriteOne(crc, key, key, targetBlockSize, now);
    OneListing(id, file);
    lsm := new SimpleLsm.Open(crc, targetBlockSize, 0, map[id := file], [id], map[id := map[key := key]]);
    OneRun(lsm, id);
  }

  lemma InOrderAgain(lsm: SimpleLsm, again: SimpleLsm, first: u32, last: u32)
    requires lsm.RunsFollow() && lsm.level0Runs == [last] + [first] && first < last && again.files == lsm.files
    requires again.Listed() && Increasing(again.level0Runs)
    ensures again.level0Runs == [first] + [last] && last in lsm.contents && first in lsm.contents
  {
    hide Holds, Overlay;
    assert lsm.level0Runs[0] == last && lsm.level0Runs[1] == first;
    assert lsm.files.Keys == {first, last};
    assert SameIds(again.level0Runs, [first, last]);
    IncreasingIsUnique(again.level0Runs, [first, last]);
  }

  method WriteOne(crc: Crc, key: Bytes, value: Bytes, targetBlockSize: nat, now: u64) returns (file: Bytes)
    requires |key| == 1 && |value| == 1
    ensures Holds(crc, file, map[key := value])
  {
    hide Holds, TableWeight;
    SingleWeight(key, value);
    var written := WriteTable(crc, map[key := value], targetBlockSize, now);
    return written.value;
  }

  lemma OneListing(id: u32, file: Bytes)
    ensures IsListing([id], map[id := file].Keys)
  {
  }

  lemma SaturatedNext()
    ensures NextId(0xFFFF_FFFF) == 0xFFFF_FFFF
    ensures AfterLast([0xFFFF_FFFE]) == 0xFFFF_FFFF && AfterLast([0xFFFF_FFFF]) == 0
  {
  }

  method PutAndFlush(lsm: SimpleLsm, key: Bytes, value: Bytes, now: u64)
    requires lsm.RunsFollow() && lsm.memtable == map[] && lsm.memtableMaxEntries == 0 && |key| == 1 && |value| == 1
    modifies lsm
    ensures lsm.RunsFollow() && lsm.memtable == map[]
    ensures lsm.level0Runs == old(lsm.level0Runs) + [old(lsm.nextRunId)] && lsm.nextRunId == NextId(old(lsm.nextRunId))
    ensures lsm.contents == old(lsm.contents)[old(lsm.nextRunId) := map[key := value]]
  {
    hide DirectoryHolds, AreTheRuns, Overlay, Dispensable, IdsInOrder, TableWeight;
    var none: Table := map[];
    SingleWeight(key, value);
    assert none[key := value] == map[key := value];
    var _ := lsm.Put(key, value, now);
    var _ := lsm.FlushMemtable(now);
  }

  lemma NewestHas(lsm: SimpleLsm, ids: seq<u32>, id: u32, key: Bytes, value: Bytes)
    requires lsm.RunsFollow() && lsm.memtable == map[] && lsm.level0Runs == ids + [id]
    requires id in lsm.contents && lsm.contents[id] == map[key := value]
    ensures lsm.Listed() && Lookup(lsm.Live(), key) == Some(value)
  {
    hide Holds;
    LastOverlay(ids, lsm.contents, id);
  }

  lemma OnlyOldest(lsm: SimpleLsm, id: u32, last: u32)
    requires lsm.RunsFollow() && lsm.memtable == map[] && lsm.level0Runs == [id, last, last]
    requires id in lsm.contents && last in lsm.contents
    requires lsm.contents[id] == map[[9] := [9]] && lsm.contents[last] == map[[2] := [2]]
    ensures lsm.Listed() && Lookup(lsm.Live(), [1]) == None
  {
    hide Holds;
    var c := lsm.contents;
    assert [id, last, last][..2] == [id, last] && [id, last][..1] == [id] && [id][..0] == [];
    assert Overlay([], c) == map[];
    assert Overlay([id], c) == map[[9] := [9]];
    assert Overlay([id, last], c) == Overlay([id], c) + c[last];
    assert Overlay([id, last, last], c) == Overlay([id, last], c) + c[last];
    assert [1][0] != [2][0] && [1][0] != [9][0];
  }

  lemma SingleWeight(key: Bytes, value: Bytes)
    ensures TableWeight(map[key := value]) == EntryWeight(RunEntry(key, value))
  {
    var none: Table := map[];
    WeightInserted(none, key, value);
    assert none[key := value] == map[key := value];
  }

  lemma OneRun(lsm: SimpleLsm, id: u32)
    requires lsm.Listed() && Increasing(lsm.level0Runs)
    requires lsm.files.Keys == {id} && lsm.contents.Keys == {id} && Holds(lsm.crc, lsm.files[id], lsm.contents[id])
    requires lsm.nextRunId == AfterLast(lsm.level0Runs)
    ensures lsm.level0Runs == [id] && lsm.RunsFollow() && lsm.nextRunId == AfterLast([id])
  {
    hide Holds;
    IncreasingIsUnique(lsm.level0Runs, [id]);
  }
}

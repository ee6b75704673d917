/** The bounded cache of visible versions, keyed by row and coarse snapshot bucket, against the plain walk. */
module VisibleIndex {
  import opened Wrappers
  import opened Codec
  import opened RowSeg
  import opened Mvcc

  datatype Bucket = Latest | AsOf(n: nat)

  function BucketOf(s: Snapshot, width: nat): Bucket
    requires width > 0
  {
    if s.Some? then AsOf(s.value / width) else Latest
  }

  /** The `k`-th bucket begins after `a` and no later than `b`. */
  predicate BeginsBetween(a: u64, b: u64, width: nat, k: nat) {
    a < k * width <= b
  }

  /** Two timestamps share a bucket exactly when no bucket begins between them; the latest snapshot has its own. */
  lemma SameBucketIff(a: u64, b: u64, width: nat)
    requires width > 0 && a <= b
    ensures BucketOf(Some(a), width) == BucketOf(Some(b), width) <==> forall k: nat :: !BeginsBetween(a, b, width, k)
    ensures BucketOf(None, width) != BucketOf(Some(a), width)
  {
    hide BeginsBetween;
    forall k: nat
      ensures BeginsBetween(a, b, width, k) <==> a / width < k <= b / width
    {
      BetweenIs(a, b, width, k);
      Above(a, width, k);
      Above(b, width, k);
    }
    QuotientsGrow(a, b, width);
    assert a / width < b / width ==> BeginsBetween(a, b, width, b / width);
  }

  lemma BetweenIs(a: u64, b: u64, width: nat, k: nat)
    ensures BeginsBetween(a, b, width, k) <==> a < k * width && !(b < k * width)
  {
  }

  lemma Above(n: nat, width: nat, k: nat)
    requires width > 0
    ensures n < k * width <==> n / width < k
  {
    Divides(n, width);
    if n / width < k {
      Monotone(n / width + 1, k, width);
    } else {
      Monotone(k, n / width, width);
    }
  }

  lemma QuotientsGrow(a: nat, b: nat, width: nat)
    requires width > 0 && a <= b
    ensures a / width <= b / width
  {
    var q := Quotient(a, width);
    var p := Quotient(b, width);
    QuotientsOrder(q, p, a, b, width);
  }

  lemma QuotientsOrder(q: nat, p: nat, a: nat, b: nat, width: nat)
    requires q * width <= a <= b < (p + 1) * width
    ensures q <= p
  {
    if p < q {
      Monotone(p + 1, q, width);
    }
  }

  lemma Quotient(n: nat, width: nat) returns (q: nat)
    requires width > 0
    ensures q == n / width && q * width <= n < (q + 1) * width
  {
    q := n / width;
    var r := n % width;
    assert n == q * width + r && (q + 1) * width == q * width + width;
  }

  lemma Divides(n: nat, width: nat)
    requires width > 0
    ensures (n / width) * width <= n < (n / width + 1) * width
  {
  }

  lemma Monotone(a: nat, b: nat, width: nat)
    requires a <= b
    ensures a * width <= b * width
  {
  }

  datatype Key = Key(rowId: u64, bucket: Bucket)

  datatype Entry = Entry(head: Option<FilePtr>, lookup: Lookup)

  datatype Stats = Stats(hits: nat, misses: nat, stale: nat, inserts: nat, evictions: nat)

  /** The cached lookup is reused only when its version is visible at the new snapshot too. */
  predicate MatchesSnapshot(l: Lookup, s: Snapshot) {
    !l.Missing? && Visible(s, l.version.row)
  }

  /******* When a cached answer is the right one *******/

  /** Reusing the version found at one snapshot for another that sees it is right exactly when no newer version of
      the chain is visible there. */
  lemma {:induction false} ReuseIsRight(vs: Versions, ptr: FilePtr, x: Ids, s0: Snapshot, s1: Snapshot,
                                        seen: set<FilePtr>, hops: nat)
    requires ptr != NO_PTR && Walk(vs, ptr, x, s0, seen, hops).Ok?
    requires MatchesSnapshot(Walk(vs, ptr, x, s0, seen, hops).value, s1)
    ensures var r := Walk(vs, ptr, x, s0, seen, hops);
      && hops < r.value.version.hops <= hops + |Chain(vs, ptr, seen)|
      && (Walk(vs, ptr, x, s1, seen, hops) == r
          <==> NoneVisible(s1, Chain(vs, ptr, seen), r.value.version.hops - hops - 1))
    decreases vs.Keys - seen
  {
    var row := vs[ptr];
    var rest := Chain(vs, row.prevPtr, seen + {ptr});
    var r := Walk(vs, ptr, x, s0, seen, hops).value;
    assert Chain(vs, ptr, seen) == [row] + rest;
    if !Visible(s0, row) {
      ReuseIsRight(vs, row.prevPtr, Check(x, row).value, s0, s1, seen + {ptr}, hops + 1);
      NoneVisibleSplits(s1, row, rest, r.version.hops - hops - 2);
    }
  }

  lemma NoneVisibleSplits(s: Snapshot, row: RowVersion, rest: seq<RowVersion>, n: nat)
    requires n <= |rest|
    ensures NoneVisible(s, [row] + rest, n + 1) <==> !Visible(s, row) && NoneVisible(s, rest, n)
  {
    if NoneVisible(s, [row] + rest, n + 1) {
      assert ([row] + rest)[0] == row;
      forall i | 0 <= i < n
        ensures !Visible(s, rest[i])
      {
        assert ([row] + rest)[i + 1] == rest[i];
      }
    }
    if !Visible(s, row) {
      FirstVisibleShifts(s, row, rest);
    }
  }

  /** `chain[n]` is what `s0` sees, `s1` sees it too, but `s1` should see something newer. */
  predicate Misleads(chain: seq<RowVersion>, n: nat, s0: Snapshot, s1: Snapshot) {
    n < |chain| && NoneVisible(s0, chain, n) && Visible(s0, chain[n]) && Visible(s1, chain[n]) && !NoneVisible(s1, chain, n)
  }

  /** Within no bucket does a version found at one snapshot mislead another. */
  ghost predicate Stable(chain: seq<RowVersion>, width: nat)
    requires width > 0
  {
    forall n: nat, s0: Snapshot, s1: Snapshot ::
      Misleads(chain, n, s0, s1) ==> BucketOf(s0, width) != BucketOf(s1, width)
  }

  /** No instant lies in the visibility windows of two versions. */
  ghost predicate DisjointWindows(chain: seq<RowVersion>) {
    forall i, j, ts: u64 :: 0 <= i < j < |chain| && VisibleAt(ts, chain[j]) ==> !VisibleAt(ts, chain[i])
  }

  lemma MisleadingOverlaps(chain: seq<RowVersion>, n: nat, s0: Snapshot, s1: Snapshot)
    requires Misleads(chain, n, s0, s1)
    ensures !DisjointWindows(chain)
  {
    var i :| 0 <= i < n && Visible(s1, chain[i]);
    assert VisibleAt(ReadTs(s1), chain[n]) && VisibleAt(ReadTs(s1), chain[i]);
  }

  /** Pairwise disjoint windows never mislead, whatever the bucket width. */
  lemma DisjointIsStable(chain: seq<RowVersion>, width: nat)
    requires width > 0 && DisjointWindows(chain)
    ensures Stable(chain, width)
  {
    forall n: nat, s0: Snapshot, s1: Snapshot
      ensures !Misleads(chain, n, s0, s1)
    {
      if Misleads(chain, n, s0, s1) {
        MisleadingOverlaps(chain, n, s0, s1);
      }
    }
  }

  /** A contiguous chain has disjoint windows. */
  lemma {:induction false} ContiguousIsDisjoint(chain: seq<RowVersion>, next: u64)
    requires Contiguous(chain, next)
    ensures DisjointWindows(chain)
    decreases |chain|
  {
    if chain != [] {
      var v, rest := chain[0], chain[1..];
      ContiguousIsDisjoint(rest, if v.beginTs == 0 then next else v.beginTs);
      forall i, j, ts: u64 | 0 <= i < j < |chain| && VisibleAt(ts, chain[j])
        ensures !VisibleAt(ts, chain[i])
      {
        assert chain[j] == rest[j - 1];
        if i > 0 {
          assert chain[i] == rest[i - 1];
        } else if v.beginTs != 0 {
          EndsByNext(rest, v.beginTs, j - 1);
        }
      }
    }
  }

  lemma RowReuseIsRight(vs: Versions, head: FilePtr, rowId: u64, s0: Snapshot, s1: Snapshot)
    requires ResolveRow(vs, Some(head), rowId, s0).Ok? && MatchesSnapshot(ResolveRow(vs, Some(head), rowId, s0).value, s1)
    ensures var r, chain := ResolveRow(vs, Some(head), rowId, s0), Chain(vs, head, {});
      && 0 < r.value.version.hops <= |chain|
      && NoneVisible(s0, chain, r.value.version.hops - 1) && chain[r.value.version.hops - 1] == r.value.version.row
      && (ResolveRow(vs, Some(head), rowId, s1) == r <==> NoneVisible(s1, chain, r.value.version.hops - 1))
  {
    hide Walk, Chain;
    ReuseIsRight(vs, head, Ids(Some(rowId), None), s0, s1, {}, 0);
    WalkFindsFirst(vs, head, Ids(Some(rowId), None), s0, {}, 0);
  }

  lemma FoundIsVisible(vs: Versions, head: FilePtr, rowId: u64, s: Snapshot)
    requires ResolveRow(vs, Some(head), rowId, s).Ok? && !ResolveRow(vs, Some(head), rowId, s).value.Missing?
    ensures MatchesSnapshot(ResolveRow(vs, Some(head), rowId, s).value, s)
  {
    hide Walk, Chain;
    WalkFindsFirst(vs, head, Ids(Some(rowId), None), s, {}, 0);
  }

  /** Cached or not, an answer is a version of the row that the snapshot sees, and says rightly whether it is a deletion. */
  predicate FindsVisible(l: Lookup, rowId: u64, s: Snapshot) {
    && !l.Missing? && l.version.row.rowId == rowId && Visible(s, l.version.row)
    && (l.Deleted? <==> l.version.row.flags % 2 == 1)
  }

  lemma PlainFindsVisible(vs: Versions, head: Option<FilePtr>, rowId: u64, s: Snapshot)
    requires ResolveRow(vs, head, rowId, s).Ok? && !ResolveRow(vs, head, rowId, s).value.Missing?
    ensures FindsVisible(ResolveRow(vs, head, rowId, s).value, rowId, s)
  {
    hide Walk, Chain, Visible;
    WalkFindsFirst(vs, head.value, Ids(Some(rowId), None), s, {}, 0);
  }

  lemma CachedFindsVisible(vs: Versions, width: nat, key: Key, e: Entry, s: Snapshot)
    requires width > 0 && EntrySound(vs, width, key, e) && MatchesSnapshot(e.lookup, s)
    ensures FindsVisible(e.lookup, key.rowId, s)
  {
    hide Visible, ResolveRow;
    var s0: Snapshot :| BucketOf(s0, width) == key.bucket && ResolveRow(vs, e.head, key.rowId, s0) == Ok(e.lookup);
    PlainFindsVisible(vs, e.head, key.rowId, s0);
  }

  lemma StableReuse(vs: Versions, head: FilePtr, rowId: u64, s0: Snapshot, s1: Snapshot, width: nat)
    requires width > 0 && BucketOf(s0, width) == BucketOf(s1, width)
    requires ResolveRow(vs, Some(head), rowId, s0).Ok? && MatchesSnapshot(ResolveRow(vs, Some(head), rowId, s0).value, s1)
    requires Stable(Chain(vs, head, {}), width)
    ensures ResolveRow(vs, Some(head), rowId, s1) == ResolveRow(vs, Some(head), rowId, s0)
  {
    hide ResolveRow, Chain;
    RowReuseIsRight(vs, head, rowId, s0, s1);
    FoundIsVisible(vs, head, rowId, s0);
    var n := ResolveRow(vs, Some(head), rowId, s0).value.version.hops - 1;
    assert !Misleads(Chain(vs, head, {}), n, s0, s1);
  }

  /******* The cache *******/

  ghost predicate Distinct(order: seq<Key>) {
    forall i, j :: 0 <= i < j < |order| ==> order[i] != order[j]
  }

  function Without(order: seq<Key>, key: Key): (r: seq<Key>)
    ensures forall k :: k in r <==> k in order && k != key
  {
    if order == [] then []
    else
      var rest := Without(order[1..], key);
      assert forall k :: k in order <==> k == order[0] || k in order[1..];
      if order[0] == key then rest else [order[0]] + rest
  }

  lemma {:induction false} WithoutKeepsDistinct(order: seq<Key>, key: Key)
    requires Distinct(order)
    ensures Distinct(Without(order, key))
  {
    if order != [] {
      WithoutKeepsDistinct(order[1..], key);
      assert order[0] !in order[1..];
      var r, rest := Without(order, key), Without(order[1..], key);
      if order[0] != key {
        assert r == [order[0]] + rest && order[0] !in rest;
      }
    }
  }

  lemma {:induction false} NothingWithout(order: seq<Key>, key: Key)
    requires key !in order
    ensures Without(order, key) == order
  {
    if order != [] {
      NothingWithout(order[1..], key);
      assert order == [order[0]] + order[1..];
    }
  }

  /** How many of `n` entries must go for one more to fit. */
  function Surplus(n: nat, capacity: nat): nat
    requires capacity > 0
  {
    if n < capacity then 0 else n - capacity + 1
  }

  /** The queue lists the keys of the cache, each once. */
  ghost predicate Lists(order: seq<Key>, entries: map<Key, Entry>) {
    Distinct(order) && forall k :: k in order <==> k in entries
  }

  lemma SizeWithout(entries: map<Key, Entry>, key: Key)
    ensures |entries - {key}| == |entries| - if key in entries then 1 else 0
  {
    if key in entries {
      assert entries == (entries - {key})[key := entries[key]];
    } else {
      assert entries - {key} == entries;
    }
  }

  lemma RemoveFromList(order: seq<Key>, entries: map<Key, Entry>, key: Key)
    requires Lists(order, entries)
    ensures Lists(Without(order, key), entries - {key})
  {
    WithoutKeepsDistinct(order, key);
  }

  lemma PopFromList(order: seq<Key>, entries: map<Key, Entry>)
    requires Lists(order, entries) && order != []
    ensures order[0] in entries && Lists(order[1..], entries - {order[0]})
  {
    var key := order[0];
    assert key in order;
    assert forall k :: k in order <==> k == key || k in order[1..];
    assert key !in order[1..];
  }

  lemma PushToList(order: seq<Key>, entries: map<Key, Entry>, key: Key, e: Entry)
    requires Lists(order, entries) && key !in entries
    ensures Lists(order + [key], entries[key := e]) && |entries[key := e]| == |entries| + 1
  {
  }

  /** The entry is what the plain walk found from its head at some snapshot of its bucket. */
  ghost predicate EntrySound(vs: Versions, width: nat, key: Key, e: Entry)
    requires width > 0
  {
    && e.head.Some? && !e.lookup.Missing?
    && exists s0: Snapshot :: BucketOf(s0, width) == key.bucket && ResolveRow(vs, e.head, key.rowId, s0) == Ok(e.lookup)
  }

  class VisibleVersionIndex {
    const width: nat
    const capacity: nat
    var entries: map<Key, Entry>
    var order: seq<Key>
    var stats: Stats

    /** `order` lists each cached key once, the size stays within the capacity, and the counters add up. */
    ghost predicate Valid()
      reads this
    {
      && width > 0
      && |entries| <= capacity
      && Lists(order, entries)
      && |entries| + stats.evictions + stats.stale == stats.inserts
    }

    ghost predicate Sound(vs: Versions)
      reads this
      requires width > 0
    {
      forall k :: k in entries ==> EntrySound(vs, width, k, entries[k])
    }

    constructor (width: nat, capacity: nat)
      ensures Valid() && entries == map[] && stats == Stats(0, 0, 0, 0, 0)
      ensures this.width == (if width > 1 then width else 1) && this.capacity == capacity
    {
      this.width := if width > 1 then width else 1;
      this.capacity := capacity;
      entries, order, stats := map[], [], Stats(0, 0, 0, 0, 0);
    }

    method RemoveKey(key: Key)
      requires Lists(order, entries)
      modifies this`entries, this`order
      ensures Lists(order, entries) && entries == old(entries) - {key}
      ensures order == Without(old(order), key)
      ensures |entries| == |old(entries)| - if key in old(entries) then 1 else 0
    {
      RemoveFromList(order, entries, key);
      SizeWithout(entries, key);
      entries := entries - {key};
      order := Without(order, key);
    }

    /** Evicts the oldest entries until one more fits. */
    method MakeRoom()
      requires Valid() && capacity > 0
      modifies this`entries, this`order, this`stats
      ensures Valid() && |entries| < capacity
      ensures forall k :: k in entries ==> k in old(entries) && entries[k] == old(entries)[k]
      ensures var n := Surplus(|old(entries)|, capacity);
        && n <= |old(order)| && order == old(order)[n..] && |entries| == |old(entries)| - n
        && (n > 0 ==> |entries| == capacity - 1)
        && stats == old(stats).(evictions := old(stats).evictions + n)
    {
      hide Lists;
      ghost var n := 0;
      while |entries| >= capacity
        invariant Valid()
        invariant n <= |old(order)| && order == old(order)[n..] && |entries| == |old(entries)| - n
        invariant n > 0 ==> |entries| >= capacity - 1
        invariant stats == old(stats).(evictions := old(stats).evictions + n)
        invariant forall k :: k in entries ==> k in old(entries) && entries[k] == old(entries)[k]
        decreases |order|
      {
        if order == [] {
          EmptyList(order, entries);
          break;
        }
        PopFromList(order, entries);
        var oldest := order[0];
        SizeWithout(entries, oldest);
        order := order[1..];
        if oldest in entries {
          stats := stats.(evictions := stats.evictions + 1);
        }
        entries := entries - {oldest};
        n := n + 1;
      }
    }

    /** Caches an entry under a fresh key as the newest one, after evicting the oldest entries and no more than must go. */
    method Insert(key: Key, e: Entry)
      requires Valid() && capacity > 0 && key !in entries
      modifies this`entries, this`order, this`stats
      ensures Valid()
      ensures key in entries && entries[key] == e
      ensures forall k :: k in entries && k != key ==> k in old(entries) && entries[k] == old(entries)[k]
      ensures |entries| == if |old(entries)| < capacity then |old(entries)| + 1 else capacity
      ensures var n := Surplus(|old(entries)|, capacity);
        && n <= |old(order)| && order == old(order)[n..] + [key] && |entries| == |old(entries)| - n + 1
        && stats == old(stats).(evictions := old(stats).evictions + n, inserts := old(stats).inserts + 1)
    {
      hide Lists, Without, Surplus, EntrySound;
      KeyNotQueued(order, entries, key);
      RemoveKey(key);
      assert order == old(order) && entries == old(entries);
      MakeRoom();
      PushToList(order, entries, key, e);
      order := order + [key];
      entries := entries[key := e];
      stats := stats.(inserts := stats.inserts + 1);
    }

    /** The lookup is answered from the cache: same head, and the cached version is visible at the snapshot. */
    predicate Hit(head: Option<FilePtr>, rowId: u64, s: Snapshot)
      reads this
      requires width > 0
    {
      var key := Key(rowId, BucketOf(s, width));
      capacity > 0 && key in entries && entries[key].head == head && MatchesSnapshot(entries[key].lookup, s)
    }

    /** After a miss the key holds exactly what was found, and nothing when there was nothing to find. */
    predicate Caches(key: Key, head: Option<FilePtr>, r: Outcome<Lookup>)
      reads this`entries
    {
      if r.Ok? && !r.value.Missing? then key in entries && entries[key] == Entry(head, r.value) else key !in entries
    }

    /** A lookup through the cache: a hit returns the cached lookup, anything else what the plain walk returns; on a
        stable chain the two agree, hops included. Every call is counted once, as a hit or as a miss. */
    method Resolve(vs: Versions, head: Option<FilePtr>, rowId: u64, s: Snapshot) returns (r: Outcome<Lookup>)
      requires Valid() && Sound(vs)
      modifies this`entries, this`order, this`stats
      ensures Valid() && Sound(vs)
      ensures r == if old(Hit(head, rowId, s)) then Ok(old(entries)[Key(rowId, BucketOf(s, width))].lookup)
                   else ResolveRow(vs, head, rowId, s)
      ensures head.None? || Stable(Chain(vs, head.value, {}), width) ==> r == ResolveRow(vs, head, rowId, s)
      ensures r.Ok? && !r.value.Missing? ==> FindsVisible(r.value, rowId, s)
      ensures stats.hits + stats.misses == old(stats.hits + stats.misses) + 1
      ensures stats.hits == old(stats.hits) + if old(Hit(head, rowId, s)) then 1 else 0
      ensures forall k :: k in entries && k != Key(rowId, BucketOf(s, width)) ==>
        k in old(entries) && entries[k] == old(entries)[k]
      ensures capacity > 0 && !old(Hit(head, rowId, s)) ==> Caches(Key(rowId, BucketOf(s, width)), head, r)
    {
      hide Stable, ResolveRow, Visible, Lists, Chain, EntrySound;
      stats := stats.(misses := stats.misses + 1);
      if Hit(head, rowId, s) {
        var key := Key(rowId, BucketOf(s, width));
        stats := stats.(hits := stats.hits + 1, misses := stats.misses - 1);
        HitIsRight(vs, width, key, entries[key], s);
        CachedFindsVisible(vs, width, key, entries[key], s);
        return Ok(entries[key].lookup);
      }
      r := Refill(vs, head, rowId, s);
      if r.Ok? && !r.value.Missing? {
        PlainFindsVisible(vs, head, rowId, s);
      }
    }

    /** A lookup past the cache: drops the stale entry, walks the chain, and caches what it finds. */
    method Refill(vs: Versions, head: Option<FilePtr>, rowId: u64, s: Snapshot) returns (r: Outcome<Lookup>)
      requires Valid() && Sound(vs)
      modifies this`entries, this`order, this`stats
      ensures Valid() && Sound(vs)
      ensures r == ResolveRow(vs, head, rowId, s)
      ensures stats.hits == old(stats.hits) && stats.misses == old(stats.misses)
      ensures forall k :: k in entries && k != Key(rowId, BucketOf(s, width)) ==>
        k in old(entries) && entries[k] == old(entries)[k]
      ensures capacity > 0 ==> Caches(Key(rowId, BucketOf(s, width)), head, r)
    {
      hide ResolveRow, Lists, EntrySound;
      var key := Key(rowId, BucketOf(s, width));
      if capacity > 0 && key in entries {
        RemoveKey(key);
        stats := stats.(stale := stats.stale + 1);
      }
      r := Uncached(vs, head, rowId, s);
      if capacity > 0 && r.Ok? && !r.value.Missing? {
        NewEntrySound(vs, width, head, rowId, s);
        Insert(key, Entry(head, r.value));
      }
    }
  }

  lemma HitIsRight(vs: Versions, width: nat, key: Key, e: Entry, s: Snapshot)
    requires width > 0 && EntrySound(vs, width, key, e) && key.bucket == BucketOf(s, width)
    requires MatchesSnapshot(e.lookup, s)
    ensures e.head.Some?
    ensures Stable(Chain(vs, e.head.value, {}), width) ==> ResolveRow(vs, e.head, key.rowId, s) == Ok(e.lookup)
  {
    hide Stable, ResolveRow, Visible, Chain;
    var s0: Snapshot :| BucketOf(s0, width) == key.bucket && ResolveRow(vs, e.head, key.rowId, s0) == Ok(e.lookup);
    if Stable(Chain(vs, e.head.value, {}), width) {
      StableReuse(vs, e.head.value, key.rowId, s0, s, width);
    }
  }

  lemma NewEntrySound(vs: Versions, width: nat, head: Option<FilePtr>, rowId: u64, s: Snapshot)
    requires width > 0 && ResolveRow(vs, head, rowId, s).Ok? && !ResolveRow(vs, head, rowId, s).value.Missing?
    ensures EntrySound(vs, width, Key(rowId, BucketOf(s, width)), Entry(head, ResolveRow(vs, head, rowId, s).value))
  {
  }

  lemma KeyNotQueued(order: seq<Key>, entries: map<Key, Entry>, key: Key)
    requires Lists(order, entries) && key !in entries
    ensures Without(order, key) == order && entries - {key} == entries
  {
    NothingWithout(order, key);
  }

  lemma EmptyList(order: seq<Key>, entries: map<Key, Entry>)
    requires Lists(order, entries) && order == []
    ensures |entries| == 0
  {
    assert entries == map[];
  }

  method Uncached(vs: Versions, head: Option<FilePtr>, rowId: u64, s: Snapshot) returns (r: Outcome<Lookup>)
    ensures r == ResolveRow(vs, head, rowId, s)
  {
    if head.None? {
      return Ok(Missing);
    }
    r := ResolveChain(vs, head.value, Ids(Some(rowId), None), s);
  }

  /******* Two reads: exactly when the cache goes wrong *******/

  /** Two reads of one row through a fresh cache. The first is right; the second is wrong exactly when it falls in the
      same bucket, still sees the version the first one found, and also sees a newer one; then it gives that version
      again. */
  method TwoReads(vs: Versions, head: FilePtr, rowId: u64, s0: Snapshot, s1: Snapshot, width: nat, capacity: nat)
    returns (r0: Outcome<Lookup>, r1: Outcome<Lookup>)
    requires width > 0 && capacity > 0
    ensures r0 == ResolveRow(vs, Some(head), rowId, s0)
    ensures r1 != ResolveRow(vs, Some(head), rowId, s1) <==>
      && BucketOf(s0, width) == BucketOf(s1, width)
      && r0.Ok? && MatchesSnapshot(r0.value, s1)
      && !NoneVisible(s1, Chain(vs, head, {}), r0.value.version.hops - 1)
    ensures BucketOf(s0, width) == BucketOf(s1, width) && r0.Ok? && MatchesSnapshot(r0.value, s1) ==> r1 == r0
  {
    hide Stable, ResolveRow, Chain, Visible, Lists, EntrySound;
    var index := new VisibleVersionIndex(width, capacity);
    r0 := index.Resolve(vs, Some(head), rowId, s0);
    r1 := index.Resolve(vs, Some(head), rowId, s1);
    if r0.Ok? && MatchesSnapshot(r0.value, s1) {
      RowReuseIsRight(vs, head, rowId, s0, s1);
    }
  }

  const OLDER_PTR := FilePtr(1, 64)
  const NEWER_PTR := FilePtr(1, 128)
  const OLDER := RowVersion(0, 3, 42, 100, 0, NO_PTR, [])
  const NEWER := RowVersion(0, 3, 42, 200, 0, OLDER_PTR, [])
  const TWO_VERSIONS: Versions := map[OLDER_PTR := OLDER, NEWER_PTR := NEWER]

  /** A superseded version left open-ended makes the cache return a stale row: commits at 100 and 200, neither ended,
      buckets of 1000, a read at 150 and then one at 250. */
  lemma OpenEndedVersionsMislead()
    ensures var first := ResolveRow(TWO_VERSIONS, Some(NEWER_PTR), 42, Some(150));
      && BucketOf(Some(150), 1000) == BucketOf(Some(250), 1000)
      && first == Ok(Live(VisibleVersion(OLDER_PTR, OLDER, 2))) && MatchesSnapshot(first.value, Some(250))
      && ResolveRow(TWO_VERSIONS, Some(NEWER_PTR), 42, Some(250)) == Ok(Live(VisibleVersion(NEWER_PTR, NEWER, 1)))
      && Misleads(Chain(TWO_VERSIONS, NEWER_PTR, {}), 1, Some(150), Some(250))
  {
    var older, newer, p1, p2, vs := OLDER, NEWER, OLDER_PTR, NEWER_PTR, TWO_VERSIONS;
    var x, x' := Ids(Some(42), None), Ids(Some(42), Some(3));
    assert Walk(vs, p1, x', Some(150), {} + {p2}, 1) == Ok(Live(VisibleVersion(p1, older, 2)));
    assert Walk(vs, p2, x, Some(150), {}, 0) == Walk(vs, p1, x', Some(150), {} + {p2}, 1);
    assert Chain(vs, p1, {} + {p2}) == [older];
    assert Chain(vs, p2, {}) == [newer, older];
    assert Visible(Some(250), [newer, older][0]);
  }

  /** The cache at work on them: the second read gets the older row although the newer one is visible to it. */
  method ReadOpenEnded(capacity: nat) returns (r0: Outcome<Lookup>, r1: Outcome<Lookup>)
    requires capacity > 0
    ensures r0 == r1 == Ok(Live(VisibleVersion(OLDER_PTR, OLDER, 2)))
    ensures ResolveRow(TWO_VERSIONS, Some(NEWER_PTR), 42, Some(250)) == Ok(Live(VisibleVersion(NEWER_PTR, NEWER, 1)))
  {
    hide ResolveRow, Chain, Visible, Misleads;
    OpenEndedVersionsMislead();
    r0, r1 := TwoReads(TWO_VERSIONS, NEWER_PTR, 42, Some(150), Some(250), 1000, capacity);
  }

  const DELETION := RowVersion(1, 3, 42, 200, 0, OLDER_PTR, [])
  const DELETED_LATER: Versions := map[OLDER_PTR := RowVersion(0, 3, 42, 100, 200, NO_PTR, []), NEWER_PTR := DELETION]

  /** A row written at 100 and deleted at 200: a read between sees it, a later one sees the deletion and not the row. */
  method ReadDeleted(capacity: nat) returns (before: Outcome<Lookup>, after: Outcome<Lookup>)
    requires capacity > 0
    ensures before == Ok(Live(VisibleVersion(OLDER_PTR, DELETED_LATER[OLDER_PTR], 2)))
    ensures after == Ok(Deleted(VisibleVersion(NEWER_PTR, DELETION, 1)))
  {
    var vs, x, x' := DELETED_LATER, Ids(Some(42), None), Ids(Some(42), Some(3));
    assert Walk(vs, OLDER_PTR, x', Some(150), {} + {NEWER_PTR}, 1)
      == Ok(Live(VisibleVersion(OLDER_PTR, vs[OLDER_PTR], 2)));
    assert Walk(vs, NEWER_PTR, x, Some(150), {}, 0) == Walk(vs, OLDER_PTR, x', Some(150), {} + {NEWER_PTR}, 1);
    assert Walk(vs, NEWER_PTR, x, Some(250), {}, 0) == Ok(Deleted(VisibleVersion(NEWER_PTR, DELETION, 1)));
    before, after := TwoReads(vs, NEWER_PTR, 42, Some(150), Some(250), 10, capacity);
    assert !MatchesSnapshot(before.value, Some(250));
  }

  /******* Whole runs *******/

  /** Versions are appended, heads move, rows are looked up. */
  datatype Op =
    | AddVersion(ptr: FilePtr, row: RowVersion)
    | SetHead(rowId: u64, head: FilePtr)
    | DropHead(rowId: u64)
    | Read(rowId: u64, s: Snapshot)

  datatype World = World(vs: Versions, heads: map<u64, FilePtr>)

  function HeadOf(w: World, rowId: u64): Option<FilePtr> {
    if rowId in w.heads then Some(w.heads[rowId]) else None
  }

  function Evolve(w: World, op: Op): World {
    match op
    case AddVersion(ptr, row) => if ptr in w.vs then w else w.(vs := w.vs[ptr := row])
    case SetHead(rowId, head) => w.(heads := w.heads[rowId := head])
    case DropHead(rowId) => w.(heads := w.heads - {rowId})
    case Read(_, _) => w
  }

  function WorldAfter(ops: seq<Op>): World {
    if ops == [] then World(map[], map[]) else Evolve(WorldAfter(ops[..|ops| - 1]), ops[|ops| - 1])
  }

  /** What the reads of a run return without a cache. */
  function PlainAnswers(ops: seq<Op>): seq<Outcome<Lookup>> {
    if ops == [] then []
    else
      var n := |ops| - 1;
      var w := WorldAfter(ops[..n]);
      PlainAnswers(ops[..n])
      + if ops[n].Read? then [ResolveRow(w.vs, HeadOf(w, ops[n].rowId), ops[n].rowId, ops[n].s)] else []
  }

  function Reads(ops: seq<Op>): nat {
    if ops == [] then 0 else Reads(ops[..|ops| - 1]) + if ops[|ops| - 1].Read? then 1 else 0
  }

  /** At every read the chain of the row read is stable. */
  ghost predicate StableRun(ops: seq<Op>, width: nat)
    requires width > 0
  {
    forall i :: 0 <= i < |ops| && ops[i].Read? ==>
      var w := WorldAfter(ops[..i]);
      HeadOf(w, ops[i].rowId).Some? ==> Stable(Chain(w.vs, HeadOf(w, ops[i].rowId).value, {}), width)
  }

  lemma EntrySurvivesGrowth(vs: Versions, vs': Versions, width: nat, key: Key, e: Entry)
    requires width > 0 && EntrySound(vs, width, key, e)
    requires vs.Keys <= vs'.Keys && forall p :: p in vs ==> vs'[p] == vs[p]
    ensures EntrySound(vs', width, key, e)
  {
    var s0: Snapshot :| BucketOf(s0, width) == key.bucket && ResolveRow(vs, e.head, key.rowId, s0) == Ok(e.lookup);
    WalkSurvivesGrowth(vs, vs', e.head.value, Ids(Some(key.rowId), None), s0, {}, 0);
  }

  lemma SoundSurvives(index: VisibleVersionIndex, w: World, op: Op)
    requires index.width > 0 && index.Sound(w.vs)
    ensures index.Sound(Evolve(w, op).vs)
  {
    hide EntrySound;
    var vs' := Evolve(w, op).vs;
    forall k | k in index.entries
      ensures EntrySound(vs', index.width, k, index.entries[k])
    {
      EntrySurvivesGrowth(w.vs, vs', index.width, k, index.entries[k]);
    }
  }

  lemma RunStep(ops: seq<Op>, i: nat)
    requires i < |ops|
    ensures var w := WorldAfter(ops[..i]);
      && WorldAfter(ops[..i + 1]) == Evolve(w, ops[i])
      && PlainAnswers(ops[..i + 1]) == PlainAnswers(ops[..i])
           + (if ops[i].Read? then [ResolveRow(w.vs, HeadOf(w, ops[i].rowId), ops[i].rowId, ops[i].s)] else [])
      && Reads(ops[..i + 1]) == Reads(ops[..i]) + if ops[i].Read? then 1 else 0
  {
    hide ResolveRow;
    assert ops[..i + 1][..i] == ops[..i] && ops[..i + 1][i] == ops[i];
  }

  lemma StableAtRead(ops: seq<Op>, width: nat, i: nat)
    requires width > 0 && StableRun(ops, width) && i < |ops| && ops[i].Read?
    ensures var w := WorldAfter(ops[..i]);
      HeadOf(w, ops[i].rowId).Some? ==> Stable(Chain(w.vs, HeadOf(w, ops[i].rowId).value, {}), width)
  {
  }

  /** Over every run whose chains are stable when read, all reads through the cache return what the plain walk
      returns; and in every run hits and misses together count the reads. */
  method RunReads(ops: seq<Op>, width: nat, capacity: nat) returns (answers: seq<Outcome<Lookup>>, stats: Stats)
    requires width > 0
    ensures |answers| == |PlainAnswers(ops)|
    ensures StableRun(ops, width) ==> answers == PlainAnswers(ops)
    ensures stats.hits + stats.misses == Reads(ops)
    ensures stats.inserts >= stats.evictions + stats.stale
  {
    hide EntrySound, Stable, Chain, ResolveRow, Lists, WorldAfter, PlainAnswers, Reads, StableRun, Evolve, HeadOf,
      VisibleVersionIndex.Sound;
    var index := new VisibleVersionIndex(width, capacity);
    var w := World(map[], map[]);
    answers := [];
    NothingRun(index);
    for i := 0 to |ops|
      invariant fresh(index) && index.width == width && index.Valid() && index.Sound(w.vs)
      invariant w == WorldAfter(ops[..i])
      invariant |answers| == |PlainAnswers(ops[..i])|
      invariant StableRun(ops, width) ==> answers == PlainAnswers(ops[..i])
      invariant index.stats.hits + index.stats.misses == Reads(ops[..i])
    {
      RunStep(ops, i);
      if ops[i].Read? {
        if StableRun(ops, width) {
          StableAtRead(ops, width, i);
        }
        var r := index.Resolve(w.vs, HeadOf(w, ops[i].rowId), ops[i].rowId, ops[i].s);
        answers := answers + [r];
        ReadChangesNothing(w, ops[i]);
      } else {
        SoundSurvives(index, w, ops[i]);
        w := Evolve(w, ops[i]);
      }
    }
    assert ops[..|ops|] == ops;
    stats := index.stats;
  }

  lemma NothingRun(index: VisibleVersionIndex)
    requires index.width > 0 && index.entries == map[]
    ensures index.Sound(map[]) && WorldAfter([]) == World(map[], map[]) && PlainAnswers([]) == [] && Reads([]) == 0
  {
  }

  lemma ReadChangesNothing(w: World, op: Op)
    requires op.Read?
    ensures Evolve(w, op) == w
  {
  }
}

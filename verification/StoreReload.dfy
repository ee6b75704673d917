/** A store written to a segment file and loaded again means the same. */
module StoreReload {
  import opened Wrappers
  import opened Codec
  import opened ValueGraph
  import opened Compaction
  import opened Import
  import opened ValueSegment
  import opened Patch
  import VS = ValueStore

  ghost function KeptDb(db: Db): (r: Db)
    ensures r.Keys == db.Keys
  {
    map id | id in db :: Kept(db[id])
  }

  /** No delta lacks its base record. */
  ghost predicate NoOrphans(db: Db) {
    forall id :: id in db && db[id].kind == Delta ==> db[id].delta.Some?
  }

  /** `es` lists every entry of the store once. */
  ghost predicate ListsDb(es: Incoming, db: Db) {
    && DistinctIds(es)
    && (forall i :: 0 <= i < |es| ==> es[i].0 in db && db[es[i].0] == es[i].1)
    && (forall id :: id in db ==> exists i :: 0 <= i < |es| && es[i].0 == id)
  }

  lemma MergedListing(es: Incoming, db: Db)
    requires ListsDb(es, db)
    ensures DistinctIds(KeptAll(es)) && Merge(map[], KeptAll(es)) == KeptDb(db)
  {
    hide Kept;
    var ks := KeptAll(es);
    var merged := Merge(map[], ks);
    MergeFacts(map[], ks);
    forall id | id in db
      ensures id in merged
    {
      var i :| 0 <= i < |es| && es[i].0 == id;
      assert ks[i].0 == id;
    }
    forall id | id in merged
      ensures id in db && merged[id] == Kept(db[id])
    {
      var i :| 0 <= i < |ks| && ks[i] == (id, merged[id]);
      assert ks[i] == (es[i].0, Kept(es[i].1));
    }
  }

  lemma KeptSame(db: Db, id: ValueId)
    requires id in db
    ensures SamePlain(db[id], Normalized(KeptDb(db))[id])
    ensures forall b :: Reads(Normalized(KeptDb(db))[id], b) ==> Reads(db[id], b)
  {
    hide HasChain;
  }

  /** What a segment keeps of a store in working order means the same, and is accepted on loading exactly when every id of
      the store has a value. */
  lemma KeptIsAccepted(h: Hash, db: Db)
    requires ValidDb(h, db)
    ensures Acyclic(Normalized(KeptDb(db))) && Meaning(h, Normalized(KeptDb(db))) == Meaning(h, db)
    ensures Acceptable(h, KeptDb(db)) <==> Meaning(h, db).Keys == db.Keys
  {
    hide Mat, Sound, Normalized, Reads, SamePlain;
    var kept := Normalized(KeptDb(db));
    var rank :| Ranked(db, rank);
    forall id | id in db
      ensures SamePlain(db[id], kept[id]) && SamePlain(kept[id], db[id])
      ensures forall b :: Reads(kept[id], b) ==> Reads(db[id], b)
    {
      KeptSame(db, id);
      assert SamePlain(kept[id], db[id]) by { SameBack(db[id], kept[id]); }
    }
    assert Ranked(kept, rank);
    MeaningStays(h, db, kept);
    MeaningStays(h, kept, db);
    AcceptableIff(h, KeptDb(db));
  }

  lemma SameBack(e: ValueEntry, e': ValueEntry)
    requires SamePlain(e, e')
    ensures SamePlain(e', e)
  {
  }

  function Zip(ids: seq<ValueId>, entries: seq<ValueEntry>): (es: Incoming)
    requires |ids| == |entries|
    ensures |es| == |ids|
  {
    seq(|ids|, i requires 0 <= i < |ids| => (ids[i], entries[i]))
  }

  /** The entries in the order they were stored. */
  function Listing(s: VS.ValueStore): (es: Incoming)
    reads s`entries, s`entryIds
    requires |s.entries| == |s.entryIds|
    ensures |es| == |s.entries|
  {
    Zip(s.entryIds, s.entries)
  }

  lemma ListingListsDb(s: VS.ValueStore)
    requires s.Shape()
    ensures ListsDb(Listing(s), s.Db())
  {
    var es := Listing(s);
    forall id | id in s.Db()
      ensures exists i :: 0 <= i < |es| && es[i].0 == id
    {
      assert es[s.index[id]].0 == id;
    }
  }

  /** Appends the entries one by one, up to the first that cannot be framed. */
  method AppendAll(writer: ValueSegmentWriter, es: Incoming) returns (r: Outcome<()>)
    modifies writer`file
    ensures var frames := Frames(writer.crc, writer.z, es);
      if frames.Ok? then r == Ok(()) && writer.file == old(writer.file) + frames.value else r == Err(frames.error)
  {
    hide EntryFrame, Frames, After;
    ghost var crc, z, before, body := writer.crc, writer.z, writer.file, [];
    assert before + body == before && es[0..] == es;
    AfterNothing(Frames(crc, z, es));
    for i := 0 to |es|
      invariant writer.file == before + body
      invariant Frames(crc, z, es) == After(body, Frames(crc, z, es[i..]))
    {
      assert es[i..][0] == es[i] && es[i..][1..] == es[i + 1..];
      AfterStep(crc, z, body, es[i..]);
      var appended := writer.Append(es[i].0, es[i].1);
      if appended.Err? {
        return Err(appended.error);
      }
      ghost var frame := EntryFrame(crc, z, es[i].0, es[i].1).value;
      assert (before + body) + frame == before + (body + frame);
      body := body + frame;
    }
    assert es[|es|..] == [];
    AfterAll(crc, z, body);
    return Ok(());
  }

  /** Writes every entry to a new segment; the file is the header and one frame per entry, in stored order. */
  method WriteSegmentFile(crc: Crc, z: Zstd, s: VS.ValueStore, created: u64) returns (r: Outcome<Bytes>)
    requires s.Shape()
    ensures var frames := Frames(crc, z, Listing(s));
      r == if frames.Ok? then Ok(HeaderFor(crc, created) + frames.value) else Err(frames.error)
  {
    var es := Listing(s);
    hide Frames, Listing, HeaderFor, VS.ValueStore.Shape;
    var writer := new ValueSegmentWriter.Create(crc, z, created);
    var _ :- AppendAll(writer, es);
    return Ok(writer.file);
  }

  lemma AfterAll(crc: Crc, z: Zstd, body: Bytes)
    ensures After(body, Frames(crc, z, [])) == Ok(body)
  {
    assert body + [] == body;
  }

  ghost function After(body: Bytes, rest: Outcome<Bytes>): Outcome<Bytes> {
    if rest.Ok? then Ok(body + rest.value) else rest
  }

  lemma AfterNothing(rest: Outcome<Bytes>)
    ensures After([], rest) == rest
  {
    if rest.Ok? {
      assert [] + rest.value == rest.value;
    }
  }

  lemma AfterStep(crc: Crc, z: Zstd, body: Bytes, es: Incoming)
    requires es != []
    ensures var frame := EntryFrame(crc, z, es[0].0, es[0].1);
      After(body, Frames(crc, z, es)) ==
        if frame.Ok? then After(body + frame.value, Frames(crc, z, es[1..])) else Err(frame.error)
  {
    hide EntryFrame;
    var frame, rest := EntryFrame(crc, z, es[0].0, es[0].1), Frames(crc, z, es[1..]);
    if frame.Ok? && rest.Ok? {
      assert body + (frame.value + rest.value) == (body + frame.value) + rest.value;
    }
  }

  /** Loads any segment file; on success the store is in working order and has a value for each of its ids. */
  method LoadSegmentFile(crc: Crc, z: Zstd, h: Hash, config: VS.Config, file: Bytes) returns (r: Outcome<VS.ValueStore>)
    requires Lossless(z) && |file| < U64
    ensures var es := ReadSegment(crc, z, file);
      r.Ok? <==> es.Ok? && DistinctIds(es.value) && Acceptable(h, Merge(map[], es.value))
    ensures r.Ok? ==>
      && fresh(r.value) && fresh(r.value.bloom) && r.value.Valid() && r.value.h == h && r.value.policy == config.policy
      && r.value.Db() == Normalized(Merge(map[], ReadSegment(crc, z, file).value)) && Healthy(h, r.value.Db())
      && r.value.Contents().Keys == r.value.Db().Keys
  {
    hide ReadSegment, Lossless, Acceptable, Normalized, Healthy;
    var es :- ReadSegmentFile(crc, z, file);
    ReadSegmentFits(crc, z, file);
    r := VS.ValueStore.LoadStore(h, config, es);
  }

  lemma {:induction false} FramesEncode(crc: Crc, z: Zstd, es: Incoming, i: nat)
    requires Frames(crc, z, es).Ok? && i < |es|
    ensures EncodeEntry(z, es[i].0, es[i].1).Ok?
    decreases i
  {
    hide EncodeEntry, Frame;
    if i > 0 {
      FramesEncode(crc, z, es[1..], i - 1);
    }
  }

  /** Every entry can be encoded, which only a delta without its base record cannot, and fits a frame. */
  predicate Framable(z: Zstd, es: Incoming) {
    forall i :: 0 <= i < |es| ==>
      EncodeEntry(z, es[i].0, es[i].1).Ok? && |EncodeEntry(z, es[i].0, es[i].1).value| < U32
  }

  lemma {:induction false} FramesIff(crc: Crc, z: Zstd, es: Incoming)
    ensures Frames(crc, z, es).Ok? <==> Framable(z, es)
    decreases |es|
  {
    hide EncodeEntry, Frame;
    if es != [] {
      FramesIff(crc, z, es[1..]);
      assert es == [es[0]] + es[1..];
    }
  }

  lemma WrittenHasNoOrphans(crc: Crc, z: Zstd, es: Incoming, db: Db)
    requires ListsDb(es, db) && Frames(crc, z, es).Ok?
    ensures NoOrphans(db)
  {
    hide Frames;
    forall id | id in db && db[id].kind == Delta
      ensures db[id].delta.Some?
    {
      var i :| 0 <= i < |es| && es[i].0 == id;
      FramesEncode(crc, z, es, i);
    }
  }

  /** The file written for a store reads back as entries that mean what the store meant, and are accepted exactly when each
      id of the store had a value. */
  lemma WrittenLoads(crc: Crc, z: Zstd, h: Hash, es: Incoming, db: Db, created: u64)
    requires Lossless(z) && EntriesFit(es) && ListsDb(es, db) && ValidDb(h, db) && Frames(crc, z, es).Ok?
    ensures NoOrphans(db) && Acyclic(db)
    ensures var read := ReadSegment(crc, z, HeaderFor(crc, created) + Frames(crc, z, es).value);
      && read.Ok? && DistinctIds(read.value)
      && Merge(map[], read.value) == KeptDb(db)
      && (Acceptable(h, Merge(map[], read.value)) <==> Meaning(h, db).Keys == db.Keys)
      && Acyclic(Normalized(Merge(map[], read.value)))
      && Meaning(h, Normalized(Merge(map[], read.value))) == Meaning(h, db)
  {
    hide ReadSegment, Lossless, Acceptable, Normalized, Frames, ListsDb, EntriesFit, Sound, Mat, Meaning, NoOrphans;
    WrittenHasNoOrphans(crc, z, es, db);
    SegmentReadsBack(crc, z, created, es);
    MergedListing(es, db);
    KeptIsAccepted(h, db);
  }

  /** Entries whose frames are too long or whose base record is missing cannot be written. Otherwise the file loads exactly
      when every id has a value, and then each has the value it had. */
  method WriteThenLoad(crc: Crc, z: Zstd, s: VS.ValueStore, config: VS.Config, created: u64)
    returns (written: Outcome<Bytes>, loaded: Outcome<VS.ValueStore>)
    requires Lossless(z) && s.Valid() && EntriesFit(Listing(s))
    ensures written.Ok? <==> Framable(z, Listing(s))
    ensures written.Ok? ==> NoOrphans(s.Db())
    ensures written.Ok? && |written.value| < U64 ==> (loaded.Ok? <==> s.Contents().Keys == s.Db().Keys)
    ensures written.Ok? && |written.value| < U64 && loaded.Ok? ==>
      && fresh(loaded.value) && fresh(loaded.value.bloom)
      && loaded.value.Valid() && Healthy(s.h, loaded.value.Db())
      && loaded.value.h == s.h && loaded.value.policy == config.policy
      && loaded.value.Db() == Normalized(KeptDb(s.Db())) && loaded.value.Contents() == s.Contents()
  {
    hide *;
    ValidMeans(s);
    loaded := Err(NotFound);
    FramesIff(crc, z, Listing(s));
    written := WriteSegmentFile(crc, z, s, created);
    if written.Ok? {
      ListingListsDb(s);
      WrittenLoads(crc, z, s.h, Listing(s), s.Db(), created);
      if |written.value| < U64 {
        loaded := LoadSegmentFile(crc, z, s.h, config, written.value);
        if loaded.Ok? {
          ValidMeans(loaded.value);
        }
      }
    }
  }

  lemma ValidMeans(s: VS.ValueStore)
    requires s.Valid()
    ensures s.Shape() && |s.entries| == |s.entryIds|
    ensures ValidDb(s.h, s.Db()) && s.Contents() == Meaning(s.h, s.Db())
  {
    hide Mat, Acyclic;
  }
}

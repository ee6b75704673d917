/** Grouping a scanned log into committed transactions. */
module WalRecovery {
  import opened Wrappers
  import opened Codec
  import opened Wal
  import F = FileHeader

  datatype WalMutation = WalMutation(lsn: u64, flags: u16, payload: Bytes)

  datatype RecoveredTxn = RecoveredTxn(txnId: u64, beginLsn: Option<u64>, commitLsn: u64, mutations: seq<WalMutation>)

  datatype PendingTxn = PendingTxn(beginLsn: Option<u64>, mutations: seq<WalMutation>)

  const NOTHING := PendingTxn(None, [])

  /******* The declarative specification *******/

  /** The record ends whatever its transaction id had pending. */
  predicate Ends(r: Record, txn: u64) {
    r.txnId == txn && (r.body.CommitTxn? || r.body.AbortTxn?)
  }

  /** Where the current span of `txn` begins: just after its last Commit or Abort, or at the start of the log. */
  function SpanStart(rs: seq<Record>, txn: u64): (s: nat)
    ensures s <= |rs|
    ensures forall i :: s <= i < |rs| ==> !Ends(rs[i], txn)
    ensures s > 0 ==> Ends(rs[s - 1], txn)
  {
    if rs == [] then 0
    else if Ends(rs[|rs| - 1], txn) then |rs|
    else SpanStart(rs[..|rs| - 1], txn)
  }

  /** The mutations of `txn` among some records, in their order. */
  function MutationsOf(rs: seq<Record>, txn: u64): seq<WalMutation> {
    if rs == [] then []
    else
      var r := rs[|rs| - 1];
      MutationsOf(rs[..|rs| - 1], txn)
      + if r.txnId == txn && r.body.Mutation? then [WalMutation(r.lsn, r.flags, r.body.payload)] else []
  }

  /** The LSN of the last Begin of `txn` among some records. */
  function LastBegin(rs: seq<Record>, txn: u64): Option<u64> {
    if rs == [] then None
    else if rs[|rs| - 1].txnId == txn && rs[|rs| - 1].body.BeginTxn? then Some(rs[|rs| - 1].lsn)
    else LastBegin(rs[..|rs| - 1], txn)
  }

  /** What `txn` has pending at the end of the log. */
  function Pending(rs: seq<Record>, txn: u64): PendingTxn {
    var span := rs[SpanStart(rs, txn)..];
    PendingTxn(LastBegin(span, txn), MutationsOf(span, txn))
  }

  /** The transaction committed by the record at `c`: its id's mutations since its previous Commit or Abort. */
  function TxnAt(rs: seq<Record>, c: nat): RecoveredTxn
    requires c < |rs|
  {
    var r, p := rs[c], Pending(rs[..c], rs[c].txnId);
    RecoveredTxn(r.txnId, p.beginLsn, r.lsn, p.mutations)
  }

  /** The positions of the Commit records, in log order. */
  function Commits(rs: seq<Record>): (cs: seq<nat>)
    ensures forall j :: 0 <= j < |cs| ==> cs[j] < |rs| && rs[cs[j]].body.CommitTxn?
    ensures forall i, j :: 0 <= i < j < |cs| ==> cs[i] < cs[j]
    ensures forall c :: 0 <= c < |rs| && rs[c].body.CommitTxn? ==> c in cs
  {
    if rs == [] then []
    else Commits(rs[..|rs| - 1]) + if rs[|rs| - 1].body.CommitTxn? then [|rs| - 1] else []
  }

  /** Exactly one transaction for each Commit record, in commit order. */
  function Recovered(rs: seq<Record>): (ts: seq<RecoveredTxn>)
    ensures |ts| == |Commits(rs)|
    ensures forall j :: 0 <= j < |ts| ==> ts[j] == TxnAt(rs, Commits(rs)[j])
  {
    seq(|Commits(rs)|, j requires 0 <= j < |Commits(rs)| => TxnAt(rs, Commits(rs)[j]))
  }

  /******* Growing a log by one record *******/

  lemma RecoveredGrows(rs: seq<Record>)
    requires rs != []
    ensures var n := |rs| - 1;
      Recovered(rs) == Recovered(rs[..n]) + if rs[n].body.CommitTxn? then [TxnAt(rs, n)] else []
  {
    var n := |rs| - 1;
    var init := rs[..n];
    forall j | 0 <= j < |Commits(init)|
      ensures TxnAt(rs, Commits(init)[j]) == TxnAt(init, Commits(init)[j])
    {
      assert rs[..Commits(init)[j]] == init[..Commits(init)[j]];
    }
  }

  /** What a record does to the pending work of `txn`. */
  function PendingStep(p: PendingTxn, r: Record, txn: u64): PendingTxn {
    if r.txnId != txn then p
    else match r.body
      case BeginTxn => p.(beginLsn := Some(r.lsn))
      case Mutation(payload) => p.(mutations := p.mutations + [WalMutation(r.lsn, r.flags, payload)])
      case CommitTxn => NOTHING
      case AbortTxn => NOTHING
  }

  lemma PendingGrows(rs: seq<Record>, txn: u64)
    requires rs != []
    ensures Pending(rs, txn) == PendingStep(Pending(rs[..|rs| - 1], txn), rs[|rs| - 1], txn)
  {
    var n := |rs| - 1;
    var r, init := rs[n], rs[..n];
    if Ends(r, txn) {
      assert rs[SpanStart(rs, txn)..] == [];
    } else {
      var s := SpanStart(init, txn);
      SpanGrows(rs, s, txn);
    }
  }

  lemma SpanGrows(rs: seq<Record>, s: nat, txn: u64)
    requires rs != [] && s < |rs|
    ensures var n := |rs| - 1;
      && LastBegin(rs[s..], txn) == (if rs[n].txnId == txn && rs[n].body.BeginTxn? then Some(rs[n].lsn)
                                     else LastBegin(rs[..n][s..], txn))
      && MutationsOf(rs[s..], txn) == MutationsOf(rs[..n][s..], txn)
           + if rs[n].txnId == txn && rs[n].body.Mutation?
             then [WalMutation(rs[n].lsn, rs[n].flags, rs[n].body.payload)] else []
  {
    var n := |rs| - 1;
    var span, before := rs[s..], rs[..n][s..];
    assert span[..|span| - 1] == before && span[|span| - 1] == rs[n];
  }

  /** Recovering any prefix of a log gives a prefix of what recovering the whole log gives. */
  lemma {:induction false} RecoveryIsMonotone(rs: seq<Record>, k: nat)
    requires k <= |rs|
    ensures Recovered(rs[..k]) <= Recovered(rs)
    decreases |rs|
  {
    if k == |rs| {
      assert rs[..k] == rs;
    } else {
      RecoveryIsMonotone(rs[..|rs| - 1], k);
      assert rs[..|rs| - 1][..k] == rs[..k];
      RecoveredGrows(rs);
    }
  }

  /** A crash at any byte of a log loses no transaction whose Commit frame lies wholly before the cut, and what it
      leaves is recovered exactly as before the crash. */
  lemma CrashKeepsCommitted(crc: Crc, rs: seq<Record>, cut: nat)
    requires AllEncodable(rs) && cut <= |LogBytes(crc, rs)|
    ensures var found := ScanFrom(crc, LogBytes(crc, rs)[..cut]).records;
      && Recovered(found) <= Recovered(rs)
      && forall c :: 0 <= c < |rs| && rs[c].body.CommitTxn? && |LogBytes(crc, rs[..c + 1])| <= cut
           ==> TxnAt(rs, c) in Recovered(found)
  {
    hide ScanFrom, LogBytes, Recovered, WholeFrames;
    CutScan(crc, rs, cut);
    var k := WholeFrames(crc, rs, cut);
    var found := rs[..k];
    RecoveryIsMonotone(rs, k);
    forall c | 0 <= c < |rs| && rs[c].body.CommitTxn? && |LogBytes(crc, rs[..c + 1])| <= cut
      ensures TxnAt(rs, c) in Recovered(found)
    {
      WholeFramesCover(crc, rs, cut, c);
      KeptCommitRecovered(rs, k, c);
    }
  }

  lemma WholeFramesCover(crc: Crc, rs: seq<Record>, cut: nat, c: nat)
    requires AllEncodable(rs) && cut <= |LogBytes(crc, rs)| && c < |rs| && |LogBytes(crc, rs[..c + 1])| <= cut
    ensures c < WholeFrames(crc, rs, cut)
  {
    hide LogBytes, Torn;
    CutLog(crc, rs, cut);
    var k := WholeFrames(crc, rs, cut);
    if c >= k {
      LongerPrefixLongerLog(crc, rs, k + 1, c + 1);
    }
  }

  lemma KeptCommitRecovered(rs: seq<Record>, k: nat, c: nat)
    requires c < k <= |rs| && rs[c].body.CommitTxn?
    ensures TxnAt(rs, c) in Recovered(rs[..k])
  {
    hide Pending;
    var found := rs[..k];
    assert found[c] == rs[c] && found[..c] == rs[..c];
    assert c in Commits(found);
    var j :| 0 <= j < |Commits(found)| && Commits(found)[j] == c;
    assert Recovered(found)[j] == TxnAt(found, c);
  }

  lemma {:induction false} LongerPrefixLongerLog(crc: Crc, rs: seq<Record>, i: nat, j: nat)
    requires i <= j <= |rs|
    ensures |LogBytes(crc, rs[..i])| <= |LogBytes(crc, rs[..j])|
    decreases j - i
  {
    hide FrameOf;
    if i < j {
      LongerPrefixLongerLog(crc, rs, i, j - 1);
      LogAppend(crc, rs[..j - 1], rs[j - 1]);
      assert rs[..j - 1] + [rs[j - 1]] == rs[..j];
    }
  }

  /******* Ids used again *******/

  /** Every mutation comes after the Begin that is reported with it. */
  predicate FollowsBegin(beginLsn: Option<u64>, mutations: seq<WalMutation>) {
    forall j :: 0 <= j < |mutations| ==> beginLsn.Some? && beginLsn.value < mutations[j].lsn
  }

  predicate Begins(r: Record, txn: u64) {
    r.txnId == txn && r.body.BeginTxn?
  }

  predicate Mutates(r: Record, txn: u64) {
    r.txnId == txn && r.body.Mutation?
  }

  predicate NoBegin(span: seq<Record>, txn: u64) {
    forall i :: 0 <= i < |span| ==> !Begins(span[i], txn)
  }

  predicate NoMutation(span: seq<Record>, txn: u64) {
    forall i :: 0 <= i < |span| ==> !Mutates(span[i], txn)
  }

  /** Each Mutation of `txn` has a Begin before it and none after it. */
  predicate BegunOnce(span: seq<Record>, txn: u64) {
    forall i :: 0 <= i < |span| && Mutates(span[i], txn) ==>
      !NoBegin(span[..i], txn) && NoBegin(span[i + 1..], txn)
  }

  /** The records since the last Commit or Abort of `txn`. */
  function Span(rs: seq<Record>, txn: u64): seq<Record> {
    rs[SpanStart(rs, txn)..]
  }

  lemma SpanStep(rs: seq<Record>, txn: u64)
    requires rs != []
    ensures var n := |rs| - 1;
      Span(rs, txn) == if Ends(rs[n], txn) then [] else Span(rs[..n], txn) + [rs[n]]
  {
    var n := |rs| - 1;
    if !Ends(rs[n], txn) {
      assert rs == rs[..n] + [rs[n]];
    }
  }

  /** What one record does to the order of Begins and Mutations. */
  lemma OrderGrows(span: seq<Record>, r: Record, txn: u64)
    ensures var grown := span + [r];
      && (NoBegin(grown, txn) <==> NoBegin(span, txn) && !Begins(r, txn))
      && (NoMutation(grown, txn) <==> NoMutation(span, txn) && !Mutates(r, txn))
      && (BegunOnce(grown, txn) <==>
            if Begins(r, txn) then NoMutation(span, txn)
            else BegunOnce(span, txn) && (Mutates(r, txn) ==> !NoBegin(span, txn)))
  {
    hide NoBegin;
    var grown, n := span + [r], |span|;
    NoBeginGrows(span, r, txn);
    assert grown[n] == r && grown[..n] == span && grown[n + 1..] == [];
    forall i | 0 <= i < n
      ensures grown[i] == span[i] && grown[..i] == span[..i]
      ensures NoBegin(grown[i + 1..], txn) <==> NoBegin(span[i + 1..], txn) && !Begins(r, txn)
    {
      assert grown[i + 1..] == span[i + 1..] + [r];
      NoBeginGrows(span[i + 1..], r, txn);
    }
  }

  lemma NoBeginGrows(span: seq<Record>, r: Record, txn: u64)
    ensures NoBegin(span + [r], txn) <==> NoBegin(span, txn) && !Begins(r, txn)
    ensures NoBegin([], txn)
  {
    assert (span + [r])[|span|] == r;
    forall i | 0 <= i < |span|
      ensures (span + [r])[i] == span[i]
    {
    }
  }

  /** What is pending reads off the span: whether it has a Begin, whether it has a Mutation, and their order. */
  lemma {:induction false} PendingFollowsIff(rs: seq<Record>, txn: u64)
    requires Contiguous(rs)
    ensures var p, span := Pending(rs, txn), Span(rs, txn);
      && (p.beginLsn.None? <==> NoBegin(span, txn)) && (p.mutations == [] <==> NoMutation(span, txn))
      && (p.beginLsn.Some? ==> p.beginLsn.value <= |rs|)
      && (forall j :: 0 <= j < |p.mutations| ==> p.mutations[j].lsn <= |rs|)
      && (FollowsBegin(p.beginLsn, p.mutations) <==> BegunOnce(span, txn))
    decreases |rs|
  {
    hide Pending, Span, NoBegin, NoMutation, BegunOnce;
    EmptyOrder(txn);
    if rs == [] {
      EmptyLog();
    } else {
      var n := |rs| - 1;
      PendingFollowsIff(rs[..n], txn);
      PendingGrows(rs, txn);
      SpanStep(rs, txn);
      OrderGrows(Span(rs[..n], txn), rs[n], txn);
      StepFollows(Pending(rs[..n], txn), rs[n], txn, n + 1);
    }
  }

  lemma EmptyOrder(txn: u64)
    ensures Span([], txn) == [] && NoBegin([], txn) && NoMutation([], txn) && BegunOnce([], txn)
  {
  }

  lemma StepFollows(p: PendingTxn, r: Record, txn: u64, n: nat)
    requires r.lsn == n > 0
    requires p.beginLsn.Some? ==> p.beginLsn.value < n
    requires forall j :: 0 <= j < |p.mutations| ==> p.mutations[j].lsn < n
    ensures var q := PendingStep(p, r, txn);
      FollowsBegin(q.beginLsn, q.mutations) <==>
        if Ends(r, txn) then true
        else if Begins(r, txn) then p.mutations == []
        else FollowsBegin(p.beginLsn, p.mutations) && (Mutates(r, txn) ==> p.beginLsn.Some?)
  {
    var q := PendingStep(p, r, txn);
    if Begins(r, txn) && p.mutations != [] {
      assert q.mutations[0].lsn < n;
    }
    if Mutates(r, txn) {
      var m := WalMutation(r.lsn, r.flags, r.body.payload);
      assert q.mutations[|p.mutations|] == m;
      assert forall j :: 0 <= j < |p.mutations| ==> q.mutations[j] == p.mutations[j];
    }
  }

  /** Over every run of appends, crashes and reopens: every mutation recovered with a commit comes after the Begin
      reported with it exactly when, since the id last ended, each Mutation had a Begin before it and none after. */
  lemma RecoveredFollowsBeginIff(crc: Crc, steps: seq<Step>, c: nat)
    requires var rs := ScanFrom(crc, Run(crc, steps).log).records; c < |rs| && rs[c].body.CommitTxn?
    ensures var rs := ScanFrom(crc, Run(crc, steps).log).records;
      var t := TxnAt(rs, c);
      && t in Recovered(rs)
      && (FollowsBegin(t.beginLsn, t.mutations) <==> BegunOnce(Span(rs[..c], rs[c].txnId), rs[c].txnId))
  {
    hide ScanFrom, Run, Pending, Recovered, Span, BegunOnce, FollowsBegin;
    RunSafety(crc, steps);
    var rs := ScanFrom(crc, Run(crc, steps).log).records;
    PendingFollowsIff(rs[..c], rs[c].txnId);
    KeptCommitRecovered(rs, |rs|, c);
    assert rs[..|rs|] == rs;
  }

  /** An append whose log sequence number and hashes the writer fills in. */
  function Writes(txn: u64, body: Body): Step {
    Write(Record(V1, 0, 0, txn, body))
  }

  function Logged(lsn: u64, txn: u64, body: Body): Record {
    Record(V1, 0, lsn, txn, body)
  }

  /** Transaction 7 is left open by a crash that loses nothing, then begun again and committed. */
  function ReusedId(crc: Crc, a: Bytes, b: Bytes): seq<Step> {
    [Writes(7, BeginTxn), Writes(7, Mutation(a)),
     Crash(|LogBytes(crc, [Logged(1, 7, BeginTxn), Logged(2, 7, Mutation(a))])|), Reopen,
     Writes(7, BeginTxn), Writes(7, Mutation(b)), Writes(7, CommitTxn)]
  }

  /** Its recovery replays the mutation that was never committed, before the Begin reported with it. */
  lemma ReusedIdKeepsUncommitted(crc: Crc, a: Bytes, b: Bytes)
    requires Encodable(Logged(2, 7, Mutation(a))) && Encodable(Logged(4, 7, Mutation(b)))
    ensures var m, m' := WalMutation(2, 0, a), WalMutation(4, 0, b);
      && Recovered(ScanFrom(crc, Run(crc, ReusedId(crc, a, b)).log).records) == [RecoveredTxn(7, Some(3), 5, [m, m'])]
      && !FollowsBegin(Some(3), [m, m'])
  {
    hide ScanFrom, Run, Recovered, StoryOf, ReusedId;
    RunSafety(crc, ReusedId(crc, a, b));
    ReusedStory(crc, a, b);
    ReusedRecords(a, b);
    assert [WalMutation(2, 0, a), WalMutation(4, 0, b)][0].lsn == 2;
  }

  function ReusedLog(a: Bytes, b: Bytes): seq<Record> {
    [Logged(1, 7, BeginTxn), Logged(2, 7, Mutation(a)), Logged(3, 7, BeginTxn), Logged(4, 7, Mutation(b)),
     Logged(5, 7, CommitTxn)]
  }

  lemma StoryGrows(crc: Crc, steps: seq<Step>, s: Step)
    ensures StoryOf(crc, steps + [s]) == NextStory(crc, StoryOf(crc, steps), s)
  {
    assert (steps + [s])[..|steps|] == steps;
  }

  lemma ShortFits(lsn: u64, body: Body)
    requires body.BeginTxn? || body.CommitTxn?
    ensures Encodable(Logged(lsn, 7, body))
  {
  }

  lemma ReusedStory(crc: Crc, a: Bytes, b: Bytes)
    requires Encodable(Logged(2, 7, Mutation(a))) && Encodable(Logged(4, 7, Mutation(b)))
    ensures StoryOf(crc, ReusedId(crc, a, b)).records == ReusedLog(a, b)
  {
    hide LogBytes, WholeFrames, Encodable, StoryOf;
    var steps, two := ReusedId(crc, a, b), [Logged(1, 7, BeginTxn), Logged(2, 7, Mutation(a))];
    ShortFits(1, BeginTxn);
    ShortFits(3, BeginTxn);
    ShortFits(5, CommitTxn);
    AllWhole(crc, two, |LogBytes(crc, two)|);
    NoSteps(crc);
    assert steps[..0] == [];
    var log := ReusedLog(a, b);
    assert log[..0] == [] && log[..1] == [log[0]] && log[..2] == two && log[..3] == two + [log[2]];
    assert log[..4] == log[..3] + [log[3]] && log[..5] == log[..4] + [log[4]] && log[..5] == log;
    assert two[..|two|] == two;
    for i := 0 to 7
      invariant StoryOf(crc, steps[..i]) ==
        Story(log[..if i < 3 then i else if i == 3 then 2 else i - 2], i != 3)
    {
      assert steps[..i + 1] == steps[..i] + [steps[i]];
      StoryGrows(crc, steps[..i], steps[i]);
    }
    assert steps[..7] == steps;
  }

  lemma NoSteps(crc: Crc)
    ensures StoryOf(crc, []) == Story([], true)
  {
  }

  /** A prefix of a log, and what one more record does to what is pending and recovered. */
  lemma OneMore(rs: seq<Record>, i: nat, txn: u64)
    requires i < |rs|
    ensures Pending(rs[..i + 1], txn) == PendingStep(Pending(rs[..i], txn), rs[i], txn)
    ensures !rs[i].body.CommitTxn? ==> Recovered(rs[..i + 1]) == Recovered(rs[..i])
    ensures rs[i].body.CommitTxn? ==> Recovered(rs[..i + 1]) == Recovered(rs[..i]) + [TxnAt(rs, i)]
  {
    hide Pending, Recovered, PendingStep;
    assert rs[..i + 1][..i] == rs[..i] && rs[..i + 1][i] == rs[i];
    PendingGrows(rs[..i + 1], txn);
    RecoveredGrows(rs[..i + 1]);
  }

  lemma ReusedRecords(a: Bytes, b: Bytes)
    ensures Recovered(ReusedLog(a, b)) == [RecoveredTxn(7, Some(3), 5, [WalMutation(2, 0, a), WalMutation(4, 0, b)])]
  {
    hide *;
    var rs := ReusedLog(a, b);
    ReusedLogIs(a, b);
    EmptyLog();
    assert rs[..0] == [] && rs[..5] == rs;
    OneMore(rs, 0, 7);
    OneMore(rs, 1, 7);
    OneMore(rs, 2, 7);
    OneMore(rs, 3, 7);
    OneMore(rs, 4, 7);
    ReusedSteps(a, b);
    TxnAtIs(rs, 4);
    assert [] + [TxnAt(rs, 4)] == [TxnAt(rs, 4)];
  }

  lemma TxnAtIs(rs: seq<Record>, c: nat)
    requires c < |rs|
    ensures var p := Pending(rs[..c], rs[c].txnId);
      TxnAt(rs, c) == RecoveredTxn(rs[c].txnId, p.beginLsn, rs[c].lsn, p.mutations)
  {
  }

  lemma ReusedSteps(a: Bytes, b: Bytes)
    ensures var m, m' := WalMutation(2, 0, a), WalMutation(4, 0, b);
      && PendingStep(NOTHING, Logged(1, 7, BeginTxn), 7) == PendingTxn(Some(1), [])
      && PendingStep(PendingTxn(Some(1), []), Logged(2, 7, Mutation(a)), 7) == PendingTxn(Some(1), [m])
      && PendingStep(PendingTxn(Some(1), [m]), Logged(3, 7, BeginTxn), 7) == PendingTxn(Some(3), [m])
      && PendingStep(PendingTxn(Some(3), [m]), Logged(4, 7, Mutation(b)), 7) == PendingTxn(Some(3), [m, m'])
  {
    var m, m' := WalMutation(2, 0, a), WalMutation(4, 0, b);
    assert NOTHING.mutations + [m] == [m] && [m] + [m'] == [m, m'];
  }

  lemma ReusedLogIs(a: Bytes, b: Bytes)
    ensures var rs := ReusedLog(a, b);
      && |rs| == 5 && (forall i :: 0 <= i < 4 ==> !rs[i].body.CommitTxn?)
      && rs[0] == Logged(1, 7, BeginTxn) && rs[1] == Logged(2, 7, Mutation(a))
      && rs[2] == Logged(3, 7, BeginTxn) && rs[3] == Logged(4, 7, Mutation(b))
      && rs[4].txnId == 7 && rs[4].lsn == 5 && rs[4].body == CommitTxn
  {
  }

  /******* The recovery loop *******/

  datatype Recovery = Recovery(txns: seq<RecoveredTxn>, lastValidLsn: nat, truncatedTail: bool,
                               discardedTailBytes: nat, tailError: Option<Error>)

  function Lookup(pending: map<u64, PendingTxn>, txn: u64): PendingTxn {
    if txn in pending then pending[txn] else NOTHING
  }

  /** Replays the records through a table of pending transactions, keyed by id. */
  method Group(rs: seq<Record>) returns (txns: seq<RecoveredTxn>, lastValidLsn: nat)
    ensures txns == Recovered(rs)
    ensures lastValidLsn == if rs == [] then 0 else rs[|rs| - 1].lsn
  {
    hide Recovered, Pending;
    var pending: map<u64, PendingTxn> := map[];
    txns, lastValidLsn := [], 0;
    EmptyLog();
    for i := 0 to |rs|
      invariant forall txn: u64 :: Lookup(pending, txn) == Pending(rs[..i], txn)
      invariant txns == Recovered(rs[..i])
      invariant lastValidLsn == if i == 0 then 0 else rs[i - 1].lsn
    {
      var r := rs[i];
      var txn := r.txnId;
      ghost var grown := rs[..i + 1];
      assert grown[..i] == rs[..i] && grown[i] == r;
      forall t: u64 {
        PendingGrows(grown, t);
      }
      RecoveredGrows(grown);
      lastValidLsn := r.lsn;
      var p := Lookup(pending, txn);
      match r.body
      case BeginTxn =>
        pending := pending[txn := p.(beginLsn := Some(r.lsn))];
      case Mutation(payload) =>
        pending := pending[txn := p.(mutations := p.mutations + [WalMutation(r.lsn, r.flags, payload)])];
      case CommitTxn =>
        pending := pending - {txn};
        txns := txns + [RecoveredTxn(txn, p.beginLsn, r.lsn, p.mutations)];
      case AbortTxn =>
        pending := pending - {txn};
    }
    assert rs[..|rs|] == rs;
  }

  lemma EmptyLog()
    ensures Recovered([]) == [] && forall txn: u64 :: Pending([], txn) == NOTHING
  {
  }

  /** Recovery of a log file: the transactions of its valid prefix, with what had to be discarded after it. */
  method Recover(crc: Crc, file: Bytes) returns (r: Outcome<Recovery>)
    ensures r.Ok? <==> F.Begins(crc, file, F.WalFile)
    ensures r.Ok? ==>
      var log := file[F.HEADER_LEN..];
      var scan := ScanFrom(crc, log);
      && r.value.txns == Recovered(scan.records)
      && r.value.lastValidLsn == (if scan.records == [] then 0 else scan.records[|scan.records| - 1].lsn)
      && r.value.truncatedTail == scan.tailError.Some? && r.value.tailError == scan.tailError
      && r.value.discardedTailBytes == |log| - scan.validBytes
  {
    hide ScanFrom, Recovered, F.Decode;
    HeaderIff(crc, file);
    var header := CheckHeader(crc, file);
    if header.Err? {
      return Err(header.error);
    }
    var log := file[F.HEADER_LEN..];
    var outcome := ScanBytes(crc, log, false);
    var scan := outcome.value;
    var txns, last := Group(scan.records);
    var discarded := if scan.tailError.Some? then |log| - scan.validBytes else 0;
    return Ok(Recovery(txns, last, scan.tailError.Some?, discarded, scan.tailError));
  }
}

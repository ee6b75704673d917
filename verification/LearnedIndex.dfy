/** The piecewise-linear index over sorted value ids, with its predictions taken as exact reals. */
module LearnedIndex {
  import opened Wrappers
  import opened Codec
  import opened ValueGraph

  /** The first eight bytes of an id as a big-endian number. */
  function Prefix(id: ValueId): (n: nat) {
    FromBe(id[..8])
  }

  /** Rounding half away from zero. */
  function Round(x: real): int {
    if x >= 0.0 then (x + 0.5).Floor else -((0.5 - x).Floor)
  }

  function Abs(x: real): real {
    if x >= 0.0 then x else -x
  }

  datatype Segment = Segment(endKey: nat, startPos: nat, endPos: nat, slope: real, intercept: real, maxError: nat)

  datatype Model = Model(segments: seq<Segment>, totalKeys: nat)

  function Line(slope: real, intercept: real, key: nat): real {
    slope * key as real + intercept
  }

  /** The rounded distance between the predicted and the true position of `keys[pos]`. */
  function PredictionError(keys: seq<ValueId>, pos: nat, slope: real, intercept: real): (e: nat)
    requires pos < |keys|
  {
    Round(Abs(Line(slope, intercept, Prefix(keys[pos])) - pos as real))
  }

  function MaxError(keys: seq<ValueId>, start: nat, end: nat, slope: real, intercept: real): (m: nat)
    requires start <= end <= |keys|
    ensures forall pos :: start <= pos < end ==> PredictionError(keys, pos, slope, intercept) <= m
    decreases end - start
  {
    if start == end then 0
    else
      var m := MaxError(keys, start, end - 1, slope, intercept);
      var e := PredictionError(keys, end - 1, slope, intercept);
      if e > m then e else m
  }

  /** The line through the first and last key of a segment. */
  function SlopeFor(keys: seq<ValueId>, start: nat, end: nat): real
    requires start <= end < |keys|
  {
    var span := Prefix(keys[end]) as real - Prefix(keys[start]) as real;
    if span == 0.0 then 0.0 else (end as real - start as real) / span
  }

  function InterceptFor(keys: seq<ValueId>, start: nat, slope: real): real
    requires start < |keys|
  {
    start as real - slope * Prefix(keys[start]) as real
  }

  /** The line goes through the first position, and through the last one when their keys differ; otherwise it is level. */
  lemma LineThroughEnds(keys: seq<ValueId>, start: nat, end: nat)
    requires start <= end < |keys|
    ensures var slope := SlopeFor(keys, start, end);
      var intercept := InterceptFor(keys, start, slope);
      && Line(slope, intercept, Prefix(keys[start])) == start as real
      && (Prefix(keys[start]) != Prefix(keys[end]) ==> Line(slope, intercept, Prefix(keys[end])) == end as real)
      && (Prefix(keys[start]) == Prefix(keys[end]) ==> slope == 0.0)
  {
    hide Prefix;
    var a, b := Prefix(keys[start]) as real, Prefix(keys[end]) as real;
    var span := b - a;
    if span != 0.0 {
      var slope := SlopeFor(keys, start, end);
      assert slope == (end as real - start as real) / span;
      SlopeTimesSpan(end as real - start as real, span);
      Distribute(slope, a, b);
    }
  }

  lemma SlopeTimesSpan(rise: real, span: real)
    requires span != 0.0
    ensures (rise / span) * span == rise
  {
  }

  lemma Distribute(slope: real, a: real, b: real)
    ensures slope * (b - a) == slope * b - slope * a
  {
  }

  /** The error of a segment is reached by one of its keys, unless it is zero. */
  lemma {:induction false} MaxErrorReached(keys: seq<ValueId>, start: nat, end: nat, slope: real, intercept: real)
    requires start <= end <= |keys|
    ensures var m := MaxError(keys, start, end, slope, intercept);
      m == 0 || exists pos :: start <= pos < end && PredictionError(keys, pos, slope, intercept) == m
    decreases end - start
  {
    hide PredictionError;
    if start < end {
      MaxErrorReached(keys, start, end - 1, slope, intercept);
      assert PredictionError(keys, end - 1, slope, intercept) <= MaxError(keys, start, end, slope, intercept);
    }
  }

  /** Rounding goes to the nearest whole number, and away from zero when two are as near. */
  lemma RoundIsNearest(x: real)
    ensures Abs(x - Round(x) as real) <= 0.5
    ensures Abs(x - Round(x) as real) == 0.5 ==> Abs(Round(x) as real) > Abs(x)
  {
  }

  function SegmentWith(keys: seq<ValueId>, start: nat, end: nat, slope: real, intercept: real): Segment
    requires start <= end < |keys|
  {
    Segment(Prefix(keys[end]), start, end, slope, intercept, MaxError(keys, start, end + 1, slope, intercept))
  }

  function SegmentFor(keys: seq<ValueId>, start: nat, end: nat): Segment
    requires start <= end < |keys|
  {
    var slope := SlopeFor(keys, start, end);
    SegmentWith(keys, start, end, slope, InterceptFor(keys, start, slope))
  }

  function SegmentsFrom(keys: seq<ValueId>, size: nat, start: nat): seq<Segment>
    requires size > 0
    decreases |keys| - start
  {
    if start >= |keys| then []
    else
      var end := (if start + size < |keys| then start + size else |keys|) - 1;
      [SegmentFor(keys, start, end)] + SegmentsFrom(keys, size, end + 1)
  }

  /** The segments cut the keys, in order and without a gap, into pieces of `size` positions, the last as long as is left. */
  lemma {:induction false} SegmentsCut(keys: seq<ValueId>, size: nat, start: nat, i: nat)
    requires size > 0 && i < |SegmentsFrom(keys, size, start)|
    ensures var s := SegmentsFrom(keys, size, start)[i];
      && s.startPos == start + i * size && s.startPos < |keys|
      && s.endPos == (if s.startPos + size < |keys| then s.startPos + size else |keys|) - 1
      && (i + 1 == |SegmentsFrom(keys, size, start)| <==> s.endPos == |keys| - 1)
    decreases |keys| - start
  {
    hide SegmentFor;
    var end := (if start + size < |keys| then start + size else |keys|) - 1;
    SegmentNames(keys, start, end);
    if i > 0 {
      SegmentsCut(keys, size, end + 1, i - 1);
      assert i * size == (i - 1) * size + size;
    }
  }

  lemma SegmentNames(keys: seq<ValueId>, start: nat, end: nat)
    requires start <= end < |keys|
    ensures SegmentFor(keys, start, end).startPos == start && SegmentFor(keys, start, end).endPos == end
  {
  }

  method BuildSegment(keys: seq<ValueId>, start: nat, end: nat) returns (s: Segment)
    requires start <= end < |keys|
    ensures s == SegmentFor(keys, start, end)
  {
    var slope := SlopeFor(keys, start, end);
    var intercept := InterceptFor(keys, start, slope);
    var maxError := FindMaxError(keys, start, end + 1, slope, intercept);
    s := Segment(Prefix(keys[end]), start, end, slope, intercept, maxError);
    assert s == SegmentWith(keys, start, end, slope, intercept);
  }

  method FindMaxError(keys: seq<ValueId>, start: nat, end: nat, slope: real, intercept: real) returns (maxError: nat)
    requires start <= end <= |keys|
    ensures maxError == MaxError(keys, start, end, slope, intercept)
  {
    maxError := 0;
    for pos := start to end
      invariant maxError == MaxError(keys, start, pos, slope, intercept)
    {
      var err := PredictionError(keys, pos, slope, intercept);
      maxError := if err > maxError then err else maxError;
    }
  }

  method Build(keys: seq<ValueId>, size: nat) returns (m: Model)
    requires size > 0
    ensures m == Model(SegmentsFrom(keys, size, 0), |keys|)
  {
    var segments: seq<Segment> := [];
    var start := 0;
    while start < |keys|
      invariant start <= |keys|
      invariant segments + SegmentsFrom(keys, size, start) == SegmentsFrom(keys, size, 0)
    {
      var end := (if start + size < |keys| then start + size else |keys|) - 1;
      var segment := BuildSegment(keys, start, end);
      assert SegmentsFrom(keys, size, start) == [segment] + SegmentsFrom(keys, size, end + 1);
      segments := segments + [segment];
      start := end + 1;
    }
    m := Model(segments, |keys|);
  }

  /** The first segment whose last key is not below `key`. */
  function SegmentIndex(segments: seq<Segment>, key: nat): (i: nat)
    ensures i <= |segments|
  {
    if segments == [] || key <= segments[0].endKey then 0 else 1 + SegmentIndex(segments[1..], key)
  }

  function Predict(s: Segment, key: nat): (pos: nat) {
    var r := Round(Line(s.slope, s.intercept, key));
    if r > 0 then r else 0
  }

  function Window(s: Segment, key: nat, totalKeys: nat): (nat, nat)
    requires totalKeys > 0
  {
    var pred, slack := Predict(s, key), s.maxError + 1;
    (if pred > slack then pred - slack else 0,
     if pred + slack < totalKeys - 1 then pred + slack else totalKeys - 1)
  }

  /** The window holds the positions of the list that are no further from the predicted one than the largest error and
      one. */
  lemma WindowIff(s: Segment, key: nat, totalKeys: nat, i: nat)
    requires totalKeys > 0
    ensures var (lo, hi) := Window(s, key, totalKeys);
      lo <= i <= hi <==> (
        i < totalKeys && Predict(s, key) <= i + s.maxError + 1 && i <= Predict(s, key) + s.maxError + 1)
  {
    hide Predict;
  }

  /** The inclusive range of sorted positions to probe for `id`. */
  function PredictRange(m: Model, id: ValueId): (r: Option<(nat, nat)>) {
    if m.totalKeys == 0 then None
    else
      var i := SegmentIndex(m.segments, Prefix(id));
      if i >= |m.segments| then None else Some(Window(m.segments[i], Prefix(id), m.totalKeys))
  }

  /******* The window bound *******/

  predicate StrictlySorted(keys: seq<ValueId>) {
    forall i, j :: 0 <= i < j < |keys| ==> FromBe(keys[i]) < FromBe(keys[j])
  }

  predicate DistinctPrefixes(keys: seq<ValueId>) {
    forall i, j :: 0 <= i < j < |keys| ==> Prefix(keys[i]) != Prefix(keys[j])
  }

  lemma ShiftDigit(head: nat, p: nat, tail: nat, last: nat)
    ensures 256 * (head * p + tail) + last == head * (256 * p) + (256 * tail + last)
  {
  }

  lemma {:induction false} FromBeSplit(b: Bytes, k: nat)
    requires k <= |b|
    ensures FromBe(b) == FromBe(b[..k]) * Pow256(|b| - k) + FromBe(b[k..])
    decreases |b|
  {
    if k == |b| {
      assert b[..k] == b && b[k..] == [];
      assert Pow256(0) == 1;
    } else {
      var init, last := b[..|b| - 1], b[|b| - 1];
      FromBeSplit(init, k);
      assert init[..k] == b[..k];
      var low := b[k..];
      assert low[..|low| - 1] == init[k..] && low[|low| - 1] == last;
      var head, p, tail := FromBe(b[..k]), Pow256(|init| - k), FromBe(init[k..]);
      ShiftDigit(head, p, tail, last);
      assert Pow256(|b| - k) == 256 * p;
      assert FromBe(low) == 256 * tail + last;
    }
  }

  lemma HighPartOrders(x: nat, r: nat, y: nat, s: nat, p: nat)
    requires r < p && s < p && x * p + r < y * p + s
    ensures x <= y
  {
    MulMonotone(y + 1, x, p);
  }

  lemma MulMonotone(a: nat, b: nat, p: nat)
    ensures a <= b ==> a * p <= b * p
  {
  }

  lemma PrefixMonotone(a: ValueId, b: ValueId)
    requires FromBe(a) < FromBe(b)
    ensures Prefix(a) <= Prefix(b)
  {
    FromBeSplit(a, 8);
    FromBeSplit(b, 8);
    HighPartOrders(Prefix(a), FromBe(a[8..]), Prefix(b), FromBe(b[8..]), Pow256(8));
  }

  predicate PrefixesIncrease(keys: seq<ValueId>) {
    forall i, j :: 0 <= i < j < |keys| ==> Prefix(keys[i]) < Prefix(keys[j])
  }

  lemma SortedPrefixesIncrease(keys: seq<ValueId>)
    requires StrictlySorted(keys) && DistinctPrefixes(keys)
    ensures PrefixesIncrease(keys)
  {
    forall i, j | 0 <= i < j < |keys|
      ensures Prefix(keys[i]) < Prefix(keys[j])
    {
      PrefixMonotone(keys[i], keys[j]);
    }
  }

  /** The segment search lands on the segment that holds the key's own position. */
  lemma {:induction false} SegmentIndexFinds(keys: seq<ValueId>, size: nat, start: nat, pos: nat)
    requires size > 0 && start <= pos < |keys|
    requires PrefixesIncrease(keys)
    ensures var segments := SegmentsFrom(keys, size, start);
      var i := SegmentIndex(segments, Prefix(keys[pos]));
      && i < |segments|
      && segments[i].startPos <= pos <= segments[i].endPos < |keys|
      && segments[i] == SegmentFor(keys, segments[i].startPos, segments[i].endPos)
    decreases |keys| - start
  {
    var end := (if start + size < |keys| then start + size else |keys|) - 1;
    hide SlopeFor, InterceptFor, MaxError, Prefix;
    var rest, first := SegmentsFrom(keys, size, end + 1), SegmentFor(keys, start, end);
    assert first.endKey == Prefix(keys[end]) && first.startPos == start && first.endPos == end;
    var key := Prefix(keys[pos]);
    var segments := [first] + rest;
    assert segments == SegmentsFrom(keys, size, start);
    if pos <= end {
      assert key <= first.endKey;
    } else {
      assert key > first.endKey && segments[1..] == rest;
      SegmentIndexFinds(keys, size, end + 1, pos);
      var i := SegmentIndex(rest, key);
      assert segments[1 + i] == rest[i];
    }
  }

  /** A rounded error of at most `e` keeps the rounded prediction within `e` of the position. */
  lemma RoundedErrorBound(pred: real, pos: nat, e: nat)
    requires Round(Abs(pred - pos as real)) <= e
    ensures pos - e <= (if Round(pred) > 0 then Round(pred) else 0) <= pos + e
  {
    assert Abs(pred - pos as real) < e as real + 0.5;
    assert pos as real - e as real - 1.0 < Round(pred) as real < pos as real + e as real + 1.0;
  }

  lemma WindowHolds(s: Segment, key: nat, pos: nat, totalKeys: nat)
    requires pos < totalKeys
    requires Round(Abs(Line(s.slope, s.intercept, key) - pos as real)) <= s.maxError
    ensures var (lo, hi) := Window(s, key, totalKeys); lo <= pos <= hi < totalKeys && hi - lo + 1 <= 2 * (s.maxError + 1) + 1
  {
    RoundedErrorBound(Line(s.slope, s.intercept, key), pos, s.maxError);
  }

  /** Every key present when the model was built lies inside its predicted window, which has at most
      2 * (max_error + 1) + 1 positions. */
  lemma WindowContainsKey(keys: seq<ValueId>, size: nat, pos: nat)
    requires size > 0 && pos < |keys|
    requires StrictlySorted(keys) && DistinctPrefixes(keys)
    ensures var m := Model(SegmentsFrom(keys, size, 0), |keys|);
      var r := PredictRange(m, keys[pos]);
      && r.Some? && r.value.0 <= pos <= r.value.1 < |keys|
      && var i := SegmentIndex(m.segments, Prefix(keys[pos]));
         i < |m.segments| && r.value.1 - r.value.0 + 1 <= 2 * (m.segments[i].maxError + 1) + 1
  {
    SortedPrefixesIncrease(keys);
    SegmentIndexFinds(keys, size, 0, pos);
    var segments := SegmentsFrom(keys, size, 0);
    var key := Prefix(keys[pos]);
    var s := segments[SegmentIndex(segments, key)];
    assert PredictionError(keys, pos, s.slope, s.intercept) <= s.maxError;
    WindowHolds(s, key, pos, |keys|);
  }
}

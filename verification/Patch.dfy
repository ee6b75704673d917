/** Copy/add patches between byte strings: `build_patch_bytes` and `apply_patch_bytes` of the value store. */
module Patch {
  import opened Wrappers
  import opened Codec

  /******* Shared prefix and suffix *******/

  predicate SameHead(a: Bytes, b: Bytes, n: nat) {
    n <= |a| && n <= |b| && forall k :: 0 <= k < n ==> a[k] == b[k]
  }

  predicate SameTail(a: Bytes, b: Bytes, n: nat) {
    n <= |a| && n <= |b| && forall k :: |a| - n <= k < |a| ==> a[k] == b[k - |a| + |b|]
  }

  /** The length of the longest common prefix, given that the first `i` bytes agree. */
  function CommonPrefixFrom(a: Bytes, b: Bytes, i: nat): (n: nat)
    requires SameHead(a, b, i)
    ensures SameHead(a, b, n)
    ensures n < |a| && n < |b| ==> a[n] != b[n]
    decreases |a| - i
  {
    if i < |a| && i < |b| && a[i] == b[i] then CommonPrefixFrom(a, b, i + 1) else i
  }

  function CommonPrefixLen(a: Bytes, b: Bytes): (n: nat)
    ensures SameHead(a, b, n)
    ensures n < |a| && n < |b| ==> a[n] != b[n]
  {
    CommonPrefixFrom(a, b, 0)
  }

  /** The longest common suffix that leaves the first `prefix` bytes of both alone, given `i` bytes agree. */
  function CommonSuffixFrom(a: Bytes, b: Bytes, prefix: nat, i: nat): (n: nat)
    requires prefix + i <= |a| && prefix + i <= |b| && SameTail(a, b, i)
    ensures n + prefix <= |a| && n + prefix <= |b| && SameTail(a, b, n)
    ensures n + prefix < |a| && n + prefix < |b| ==> a[|a| - 1 - n] != b[|b| - 1 - n]
    decreases |a| - i
  {
    if i + prefix < |a| && i + prefix < |b| && a[|a| - 1 - i] == b[|b| - 1 - i]
    then CommonSuffixFrom(a, b, prefix, i + 1) else i
  }

  function CommonSuffixLen(a: Bytes, b: Bytes, prefix: nat): (n: nat)
    requires prefix <= |a| && prefix <= |b|
    ensures n + prefix <= |a| && n + prefix <= |b| && SameTail(a, b, n)
    ensures n + prefix < |a| && n + prefix < |b| ==> a[|a| - 1 - n] != b[|b| - 1 - n]
  {
    CommonSuffixFrom(a, b, prefix, 0)
  }

  method FindCommonPrefixLen(a: Bytes, b: Bytes) returns (i: nat)
    ensures i == CommonPrefixLen(a, b)
  {
    var max := if |a| < |b| then |a| else |b|;
    i := 0;
    while i < max && a[i] == b[i]
      invariant i <= max && SameHead(a, b, i)
      invariant CommonPrefixLen(a, b) == CommonPrefixFrom(a, b, i)
    {
      i := i + 1;
    }
  }

  method FindCommonSuffixLen(a: Bytes, b: Bytes, prefix: nat) returns (i: nat)
    requires prefix <= |a| && prefix <= |b|
    ensures i == CommonSuffixLen(a, b, prefix)
  {
    var max := if |a| < |b| then |a| else |b|;
    i := 0;
    while i + prefix < max && a[|a| - (1 + i)] == b[|b| - (1 + i)]
      invariant i + prefix <= max && SameTail(a, b, i)
      invariant CommonSuffixLen(a, b, prefix) == CommonSuffixFrom(a, b, prefix, i)
    {
      i := i + 1;
    }
  }

  /******* Building *******/

  /** A patch operation: copy a range of the base, or add literal bytes. */
  datatype Op = Copy(off: nat, len: nat) | Add(data: Bytes)

  function OpBytes(op: Op): Bytes {
    match op
    case Copy(off, len) => [0] + Varu(off) + Varu(len)
    case Add(data) => [1] + Varu(|data|) + data
  }

  function OpsBytes(ops: seq<Op>): Bytes {
    if ops == [] then [] else OpBytes(ops[0]) + OpsBytes(ops[1..])
  }

  function OpIf(use: bool, op: Op): seq<Op> {
    if use then [op] else []
  }

  /** Copy the shared prefix, add the middle, copy the shared suffix; empty parts have no operation. */
  function OpsFor(base: Bytes, target: Bytes, prefix: nat, suffix: nat): seq<Op>
    requires prefix + suffix <= |base| && prefix + suffix <= |target|
  {
    OpIf(prefix > 0, Copy(0, prefix))
    + OpIf(|target| - suffix > prefix, Add(target[prefix..|target| - suffix]))
    + OpIf(suffix > 0, Copy(|base| - suffix, suffix))
  }

  function PatchOps(base: Bytes, target: Bytes): seq<Op> {
    var prefix := CommonPrefixLen(base, target);
    OpsFor(base, target, prefix, CommonSuffixLen(base, target, prefix))
  }

  /** The patch that turns `base` into `target`; empty exactly when they are equal. */
  function BuildPatch(base: Bytes, target: Bytes): (patch: Bytes)
    ensures patch == [] <==> base == target
  {
    if base == target then []
    else
      var ops := PatchOps(base, target);
      Varu(|target|) + Varu(|ops|) + OpsBytes(ops)
  }

  method BuildPatchBytes(base: Bytes, target: Bytes) returns (patch: Bytes)
    ensures patch == BuildPatch(base, target)
  {
    if base == target {
      return [];
    }
    var prefix := FindCommonPrefixLen(base, target);
    var suffix := FindCommonSuffixLen(base, target, prefix);
    var ops: seq<Op> := [];
    if prefix > 0 {
      ops := ops + [Copy(0, prefix)];
    }
    if |target| - suffix > prefix {
      ops := ops + [Add(target[prefix..|target| - suffix])];
    }
    if suffix > 0 {
      ops := ops + [Copy(|base| - suffix, suffix)];
    }
    assert ops == OpsFor(base, target, prefix, suffix);
    var body := ConcatOps(ops);
    patch := Varu(|target|) + Varu(|ops|) + body;
  }

  method ConcatOps(ops: seq<Op>) returns (out: Bytes)
    ensures out == OpsBytes(ops)
  {
    hide OpBytes;
    out := [];
    for i := 0 to |ops|
      invariant out + OpsBytes(ops[i..]) == OpsBytes(ops)
    {
      assert ops[i..][1..] == ops[i + 1..];
      out := out + OpBytes(ops[i]);
    }
  }

  /******* Applying *******/

  /** Runs one operation at the front of `cursor`: the bytes it emits and the rest of the patch. */
  function ApplyOp(base: Bytes, cursor: Bytes): Outcome<(Bytes, Bytes)> {
    if cursor == [] then Err(InvalidDelta)
    else if cursor[0] == 0 then
      var (off, rest1) :- DecodeVaru(cursor[1..]);
      var (len, rest2) :- DecodeVaru(rest1);
      if off + len > |base| then Err(InvalidDelta)
      else Ok((base[off..off + len], rest2))
    else if cursor[0] == 1 then
      var (len, rest) :- DecodeVaru(cursor[1..]);
      if |rest| < len then Err(InvalidDelta)
      else Ok((rest[..len], rest[len..]))
    else Err(InvalidDelta)
  }

  function ApplyOps(base: Bytes, cursor: Bytes, count: nat, out: Bytes): Outcome<(Bytes, Bytes)>
    decreases count
  {
    if count == 0 then Ok((out, cursor))
    else
      var (piece, rest) :- ApplyOp(base, cursor);
      ApplyOps(base, rest, count - 1, out + piece)
  }

  function ApplyPatch(base: Bytes, patch: Bytes): (r: Outcome<Bytes>)
    ensures r.Ok? ==> |r.value| < U64
  {
    var (targetLen, rest1) :- DecodeVaru(patch);
    var (count, rest2) :- DecodeVaru(rest1);
    var (out, rest3) :- ApplyOps(base, rest2, count, []);
    if rest3 != [] then Err(InvalidDelta)
    else if |out| != targetLen then Err(DeltaLengthMismatch)
    else Ok(out)
  }

  method ApplyPatchBytes(base: Bytes, patch: Bytes) returns (r: Outcome<Bytes>)
    ensures r == ApplyPatch(base, patch)
    ensures r.Ok? ==> DecodeVaru(patch).Ok? && |r.value| == DecodeVaru(patch).value.0
  {
    var targetLen :- DecodeVaru(patch);
    var count :- DecodeVaru(targetLen.1);
    var cursor, out := count.1, [];
    for i := 0 to count.0
      invariant ApplyOps(base, count.1, count.0, []) == ApplyOps(base, cursor, count.0 - i, out)
    {
      var step :- ApplyOp(base, cursor);
      cursor, out := step.1, out + step.0;
    }
    if cursor != [] {
      return Err(InvalidDelta);
    }
    if |out| != targetLen.0 {
      return Err(DeltaLengthMismatch);
    }
    return Ok(out);
  }

  /******* Round trip *******/

  /** What an operation contributes to the target. */
  function Piece(base: Bytes, op: Op): Bytes
    requires Fits(base, op)
  {
    match op
    case Copy(off, len) => base[off..off + len]
    case Add(data) => data
  }

  predicate Fits(base: Bytes, op: Op) {
    match op
    case Copy(off, len) => off + len <= |base| < U64
    case Add(data) => |data| < U64
  }

  predicate AllFit(base: Bytes, ops: seq<Op>) {
    forall i :: 0 <= i < |ops| ==> Fits(base, ops[i])
  }

  function Pieces(base: Bytes, ops: seq<Op>): Bytes
    requires AllFit(base, ops)
  {
    if ops == [] then [] else Piece(base, ops[0]) + Pieces(base, ops[1..])
  }

  lemma CopyApplies(base: Bytes, off: nat, len: nat, rest: Bytes)
    requires off + len <= |base| < U64
    ensures ApplyOp(base, OpBytes(Copy(off, len)) + rest) == Ok((base[off..off + len], rest))
  {
    assert ([0] + Varu(off) + Varu(len) + rest)[1..] == Varu(off) + (Varu(len) + rest);
    VaruRoundTrip(off, Varu(len) + rest);
    VaruRoundTrip(len, rest);
  }

  lemma AddApplies(base: Bytes, data: Bytes, rest: Bytes)
    requires |data| < U64
    ensures ApplyOp(base, OpBytes(Add(data)) + rest) == Ok((data, rest))
  {
    assert ([1] + Varu(|data|) + data + rest)[1..] == Varu(|data|) + (data + rest);
    VaruRoundTrip(|data|, data + rest);
    assert (data + rest)[..|data|] == data && (data + rest)[|data|..] == rest;
  }

  lemma OpApplies(base: Bytes, op: Op, rest: Bytes)
    requires Fits(base, op)
    ensures ApplyOp(base, OpBytes(op) + rest) == Ok((Piece(base, op), rest))
  {
    if op.Copy? {
      CopyApplies(base, op.off, op.len, rest);
    } else {
      AddApplies(base, op.data, rest);
    }
  }

  lemma ApplyFirstOp(base: Bytes, op: Op, rest: Bytes, count: nat, out: Bytes)
    requires Fits(base, op) && count > 0
    ensures ApplyOps(base, OpBytes(op) + rest, count, out) == ApplyOps(base, rest, count - 1, out + Piece(base, op))
  {
    OpApplies(base, op, rest);
  }

  lemma {:induction false} OpsApply(base: Bytes, ops: seq<Op>, more: Bytes, count: nat, out: Bytes)
    requires AllFit(base, ops) && |ops| <= count
    ensures ApplyOps(base, OpsBytes(ops) + more, count, out)
      == ApplyOps(base, more, count - |ops|, out + Pieces(base, ops))
    decreases |ops|
  {
    hide ApplyOp, ApplyOps, OpBytes, Piece, Fits;
    if ops == [] {
      assert OpsBytes(ops) + more == more && out + [] == out;
    } else {
      var piece, tail := Piece(base, ops[0]), ops[1..];
      var rest, after := OpsBytes(tail), Pieces(base, tail);
      assert OpsBytes(ops) + more == OpBytes(ops[0]) + (rest + more);
      ApplyFirstOp(base, ops[0], rest + more, count, out);
      OpsApply(base, tail, more, count - 1, out + piece);
      assert (out + piece) + after == out + (piece + after);
    }
  }

  /** A patch as bytes: the length it declares, the number of its operations, and what follows. */
  function PatchBytes(len: nat, count: nat, body: Bytes): Bytes {
    Varu(len) + Varu(count) + body
  }

  lemma PatchParses(base: Bytes, len: nat, count: nat, body: Bytes)
    requires len < U64 && count < U64
    ensures var ran := ApplyOps(base, body, count, []);
      ApplyPatch(base, PatchBytes(len, count, body)) ==
        if ran.Err? then Err(ran.error)
        else if ran.value.1 != [] then Err(InvalidDelta)
        else if |ran.value.0| != len then Err(DeltaLengthMismatch)
        else Ok(ran.value.0)
  {
    hide Varu, DecodeVaru, ApplyOps;
    assert PatchBytes(len, count, body) == Varu(len) + (Varu(count) + body);
    VaruRoundTrip(len, Varu(count) + body);
    VaruRoundTrip(count, body);
  }

  /** Any operations that fit the base: the patch applies exactly when nothing follows them and they make up the length it
      declares, and then it gives their pieces one after the other. */
  lemma PatchOfOps(base: Bytes, ops: seq<Op>, len: nat, more: Bytes)
    requires AllFit(base, ops) && |ops| < U64 && len < U64
    ensures ApplyPatch(base, PatchBytes(len, |ops|, OpsBytes(ops) + more)) ==
      if more != [] then Err(InvalidDelta)
      else if |Pieces(base, ops)| != len then Err(DeltaLengthMismatch)
      else Ok(Pieces(base, ops))
  {
    hide PatchBytes, ApplyPatch, OpsBytes, Pieces;
    PatchParses(base, len, |ops|, OpsBytes(ops) + more);
    OpsApply(base, ops, more, |ops|, []);
    assert [] + Pieces(base, ops) == Pieces(base, ops);
  }

  /** A copy from outside the base, or an operation of another kind, is refused wherever it stands. */
  lemma MisfitRefused(base: Bytes, ops: seq<Op>, off: nat, n: nat, kind: byte, rest: Bytes, len: nat, count: nat)
    requires AllFit(base, ops) && |ops| < count < U64 && len < U64
    requires off < U64 && n < U64 && off + n > |base| && kind > 1
    ensures ApplyPatch(base, PatchBytes(len, count, OpsBytes(ops) + (OpBytes(Copy(off, n)) + rest))) == Err(InvalidDelta)
    ensures ApplyPatch(base, PatchBytes(len, count, OpsBytes(ops) + ([kind] + rest))) == Err(InvalidDelta)
  {
    hide PatchBytes, ApplyPatch, OpsBytes, Pieces, Varu, DecodeVaru;
    var copy, other := OpBytes(Copy(off, n)) + rest, [kind] + rest;
    PatchParses(base, len, count, OpsBytes(ops) + copy);
    PatchParses(base, len, count, OpsBytes(ops) + other);
    OpsApply(base, ops, copy, count, []);
    OpsApply(base, ops, other, count, []);
    assert copy[1..] == Varu(off) + (Varu(n) + rest);
    VaruRoundTrip(off, Varu(n) + rest);
    VaruRoundTrip(n, rest);
  }

  lemma {:induction false} PiecesAppend(base: Bytes, xs: seq<Op>, ys: seq<Op>)
    requires AllFit(base, xs) && AllFit(base, ys)
    ensures AllFit(base, xs + ys) && Pieces(base, xs + ys) == Pieces(base, xs) + Pieces(base, ys)
    decreases |xs|
  {
    if xs == [] {
      assert xs + ys == ys;
    } else {
      assert (xs + ys)[1..] == xs[1..] + ys;
      PiecesAppend(base, xs[1..], ys);
    }
  }

  lemma PieceIf(base: Bytes, use: bool, op: Op)
    requires Fits(base, op)
    ensures AllFit(base, OpIf(use, op))
    ensures Pieces(base, OpIf(use, op)) == if use then Piece(base, op) else []
  {
  }

  lemma ThreePieces(base: Bytes, useX: bool, x: Op, useY: bool, y: Op, useZ: bool, z: Op)
    requires Fits(base, x) && Fits(base, y) && Fits(base, z)
    ensures var ops := OpIf(useX, x) + OpIf(useY, y) + OpIf(useZ, z);
      && |ops| <= 3
      && AllFit(base, ops)
      && Pieces(base, ops) == (if useX then Piece(base, x) else [])
                              + (if useY then Piece(base, y) else [])
                              + (if useZ then Piece(base, z) else [])
  {
    var a, b, c := OpIf(useX, x), OpIf(useY, y), OpIf(useZ, z);
    PieceIf(base, useX, x);
    PieceIf(base, useY, y);
    PieceIf(base, useZ, z);
    PiecesAppend(base, a, b);
    PiecesAppend(base, a + b, c);
  }

  lemma GlueParts(base: Bytes, target: Bytes, prefix: nat, suffix: nat)
    requires prefix + suffix <= |target|
    requires SameHead(base, target, prefix) && SameTail(base, target, suffix)
    ensures (if prefix > 0 then base[0..prefix] else [])
            + (if |target| - suffix > prefix then target[prefix..|target| - suffix] else [])
            + (if suffix > 0 then base[|base| - suffix..|base| - suffix + suffix] else []) == target
  {
  }

  /** The operations cut the target into prefix, middle and suffix, which never overlap. */
  lemma OpsForRebuild(base: Bytes, target: Bytes, prefix: nat, suffix: nat)
    requires prefix + suffix <= |base| < U64 && prefix + suffix <= |target| < U64
    requires SameHead(base, target, prefix) && SameTail(base, target, suffix)
    ensures var ops := OpsFor(base, target, prefix, suffix);
      |ops| <= 3 && AllFit(base, ops) && Pieces(base, ops) == target
  {
    var x, y, z := Copy(0, prefix), Add(target[prefix..|target| - suffix]), Copy(|base| - suffix, suffix);
    var ops := OpsFor(base, target, prefix, suffix);
    assert Pieces(base, ops) == target by {
      ThreePieces(base, prefix > 0, x, |target| - suffix > prefix, y, suffix > 0, z);
      var p, q, r := Piece(base, x), Piece(base, y), Piece(base, z);
      assert p == base[0..prefix] && q == target[prefix..|target| - suffix];
      assert r == base[|base| - suffix..|base| - suffix + suffix];
      GlueParts(base, target, prefix, suffix);
    }
  }

  /** Applying a built patch to its base reproduces the target, for every pair of distinct byte strings. */
  lemma PatchRoundTrip(base: Bytes, target: Bytes)
    requires base != target
    requires |base| < U64 && |target| < U64
    ensures ApplyPatch(base, BuildPatch(base, target)) == Ok(target)
  {
    var prefix := CommonPrefixLen(base, target);
    var suffix := CommonSuffixLen(base, target, prefix);
    var ops := OpsFor(base, target, prefix, suffix);
    OpsForRebuild(base, target, prefix, suffix);
    PatchOfOps(base, ops, |target|, []);
    assert OpsBytes(ops) + [] == OpsBytes(ops);
  }

  /** A patch on disk: three bytes, a copied prefix, an added byte, a copied suffix. */
  lemma PatchOnDisk()
    ensures BuildPatch([1, 2, 3], [1, 9, 3]) == [3] + [3] + ([0, 0, 1] + ([1, 1, 9] + [0, 2, 1]))
  {
    var base, target := [1, 2, 3], [1, 9, 3];
    assert base[0] == target[0] && base[1] != target[1] && base[2] == target[2];
    assert CommonPrefixLen(base, target) == 1 && CommonSuffixLen(base, target, 1) == 1;
    assert target[1..2] == [9];
    var x, y, z := Copy(0, 1), Add([9]), Copy(2, 1);
    assert OpsFor(base, target, 1, 1) == [x, y, z];
    assert [x, y, z][1..] == [y, z] && [y, z][1..] == [z] && [z][1..] == [];
    assert OpsBytes([z]) == OpBytes(z) + [] && OpsBytes([y, z]) == OpBytes(y) + OpsBytes([z]);
    assert OpsBytes([x, y, z]) == OpBytes(x) + OpsBytes([y, z]);
  }

  /** What the operations copy is free: a patch is at most 64 bytes longer than what lies between the longest common prefix
      and the longest common suffix. */
  lemma PatchIsShort(base: Bytes, target: Bytes, prefix: nat, suffix: nat)
    requires base != target && |base| < U64 && |target| < U64
    requires prefix == CommonPrefixLen(base, target) && suffix == CommonSuffixLen(base, target, prefix)
    ensures |BuildPatch(base, target)| <= |target| - prefix - suffix + 64
  {
    var x, y, z := Copy(0, prefix), Add(target[prefix..|target| - suffix]), Copy(|base| - suffix, suffix);
    hide *;
    VaruShort(|target|);
    OpWeighs(x);
    OpWeighs(y);
    OpWeighs(z);
    OpIfWeighs(prefix > 0, x);
    OpIfWeighs(|target| - suffix > prefix, y);
    OpIfWeighs(suffix > 0, z);
    OpsWeigh(OpIf(prefix > 0, x), OpIf(|target| - suffix > prefix, y), OpIf(suffix > 0, z));
    BuildPatchIs(base, target, prefix, suffix);
  }

  lemma BuildPatchIs(base: Bytes, target: Bytes, prefix: nat, suffix: nat)
    requires base != target
    requires prefix == CommonPrefixLen(base, target) && suffix == CommonSuffixLen(base, target, prefix)
    ensures prefix + suffix <= |base| && prefix + suffix <= |target|
    ensures var ops := OpIf(prefix > 0, Copy(0, prefix))
        + OpIf(|target| - suffix > prefix, Add(target[prefix..|target| - suffix]))
        + OpIf(suffix > 0, Copy(|base| - suffix, suffix));
      |BuildPatch(base, target)| == |Varu(|target|)| + 1 + |OpsBytes(ops)|
  {
    hide OpsBytes, OpIf;
    OpIfIs(prefix > 0, Copy(0, prefix));
    OpIfIs(|target| - suffix > prefix, Add(target[prefix..|target| - suffix]));
    OpIfIs(suffix > 0, Copy(|base| - suffix, suffix));
    FewOps(|PatchOps(base, target)|);
  }

  lemma OpIfIs(use: bool, op: Op)
    ensures |OpIf(use, op)| <= 1
  {
  }

  lemma OpIfWeighs(use: bool, op: Op)
    ensures |OpIf(use, op)| <= 1
    ensures |OpsBytes(OpIf(use, op))| == if use then |OpBytes(op)| else 0
  {
    hide OpBytes;
    assert [op][1..] == [];
  }

  lemma FewOps(n: nat)
    requires n <= 3
    ensures |Varu(n)| == 1
  {
  }

  lemma OpWeighs(op: Op)
    requires op.Copy? ==> op.off < U64 && op.len < U64
    requires op.Add? ==> |op.data| < U64
    ensures |OpBytes(op)| <= if op.Copy? then 21 else 11 + |op.data|
  {
    hide Varu;
    if op.Copy? {
      VaruShort(op.off);
      VaruShort(op.len);
    } else {
      VaruShort(|op.data|);
    }
  }

  lemma OpsWeigh(a: seq<Op>, b: seq<Op>, c: seq<Op>)
    ensures |OpsBytes(a + b + c)| == |OpsBytes(a)| + |OpsBytes(b)| + |OpsBytes(c)|
  {
    hide OpBytes;
    OpsBytesAppend(a + b, c);
    OpsBytesAppend(a, b);
  }

  lemma {:induction false} OpsBytesAppend(xs: seq<Op>, ys: seq<Op>)
    ensures OpsBytes(xs + ys) == OpsBytes(xs) + OpsBytes(ys)
    decreases |xs|
  {
    hide OpBytes;
    if xs == [] {
      assert xs + ys == ys;
    } else {
      assert (xs + ys)[1..] == xs[1..] + ys;
      OpsBytesAppend(xs[1..], ys);
    }
  }
}

/** Byte encodings shared by every on-disk format: VarU, fixed-width integers, record frames, file headers. */
module Codec {
  import opened Wrappers

  type byte = x: int | 0 <= x < 256
  type Bytes = seq<byte>

  const U16: nat := 0x1_0000
  const U32: nat := 0x1_0000_0000
  const U64: nat := 0x1_0000_0000_0000_0000

  type u16 = x: int | 0 <= x < 0x1_0000
  type u32 = x: int | 0 <= x < 0x1_0000_0000
  type u64 = x: int | 0 <= x < 0x1_0000_0000_0000_0000

  /** A checksum routine; the frames only ever compare its results. */
  type Crc = Bytes -> u32

  /******* VarU: unsigned LEB128 *******/

  /** The canonical VarU bytes of `v`. */
  function Varu(v: nat): (out: Bytes)
    ensures |out| >= 1
  {
    if v < 128 then [v] else [v % 128 + 128] + Varu(v / 128)
  }

  /** How many values fit in the payload bits from byte `i` of the ten on: 2^64 / 128^i. */
  function Room(i: nat): (r: nat)
    requires i <= 9
    ensures r >= 2 && (i < 9 ==> r >= 256)
    decreases 9 - i
  {
    if i == 9 then 2 else 128 * Room(i + 1)
  }

  lemma RoomAtZero()
    ensures Room(0) == U64
  {
    assert Room(9) == 2;
    assert Room(7) == 128 * 128 * 2;
    assert Room(5) == 128 * 128 * Room(7);
    assert Room(3) == 128 * 128 * Room(5);
    assert Room(1) == 128 * 128 * Room(3);
  }

  /** Decoding from byte `i` on. The tenth byte is shifted by 63, so the u64 keeps only its lowest bit. */
  function DecodeVaruAt(input: Bytes, i: nat): (r: Outcome<(nat, Bytes)>)
    requires i <= 10
    ensures r.Ok? ==> i <= 9 && r.value.0 < Room(i)
    ensures r.Ok? ==> |r.value.1| < |input|
    decreases |input|
  {
    if i == 10 then Err(InvalidVarint)
    else if input == [] then Err(CoreEof)
    else if i == 9 then
      if input[0] < 128 then Ok((input[0] % 2, input[1..])) else DecodeVaruAt(input[1..], 10)
    else if input[0] < 128 then Ok((input[0], input[1..]))
    else
      var (v, rest) :- DecodeVaruAt(input[1..], i + 1);
      assert Room(i) == 128 * Room(i + 1);
      Ok((input[0] - 128 + 128 * v, rest))
  }

  function DecodeVaru(input: Bytes): (r: Outcome<(u64, Bytes)>)
    ensures r.Ok? ==> |r.value.1| < |input|
  {
    RoomAtZero();
    var (v, rest) :- DecodeVaruAt(input, 0);
    Ok((v, rest))
  }

  lemma {:induction false} VaruRoundTripAt(v: nat, i: nat, rest: Bytes)
    requires i <= 9 && v < Room(i)
    ensures DecodeVaruAt(Varu(v) + rest, i) == Ok((v, rest))
    decreases v
  {
    var s := Varu(v) + rest;
    if v < 128 {
      assert s[0] == v && s[1..] == rest;
    } else {
      assert i < 9 && Room(i) == 128 * Room(i + 1);
      assert s[0] == v % 128 + 128 && s[1..] == Varu(v / 128) + rest;
      VaruRoundTripAt(v / 128, i + 1, rest);
    }
  }

  /** Decoding an encoded u64 gives it back and leaves exactly the bytes that followed it. */
  lemma VaruRoundTrip(v: nat, rest: Bytes)
    requires v < U64
    ensures DecodeVaru(Varu(v) + rest) == Ok((v, rest))
  {
    RoomAtZero();
    VaruRoundTripAt(v, 0, rest);
  }

  lemma {:induction false} VaruLength(v: nat, i: nat)
    requires i <= 9 && v < Room(i)
    ensures |Varu(v)| <= 10 - i
    decreases v
  {
    if v >= 128 {
      assert i < 9 && Room(i) == 128 * Room(i + 1);
      VaruLength(v / 128, i + 1);
    }
  }

  /** A u64 takes at most ten bytes. */
  lemma VaruShort(v: nat)
    requires v < U64
    ensures |Varu(v)| <= 10
  {
    RoomAtZero();
    VaruLength(v, 0);
  }

  method EncodeVaru(v: u64) returns (out: Bytes)
    ensures out == Varu(v)
  {
    out := [];
    var value: nat := v;
    while true
      invariant out + Varu(value) == Varu(v)
      decreases value
    {
      var low := value % 128;
      var high := value / 128;
      if high == 0 {
        out := out + [low];
        return;
      }
      assert out + Varu(value) == (out + [low + 128]) + Varu(high);
      out := out + [low + 128];
      value := high;
    }
  }

  function Shift(i: nat): nat {
    if i == 0 then 1 else 128 * Shift(i - 1)
  }

  lemma {:induction false} ShiftTimesRoom(i: nat)
    requires i <= 9
    ensures Shift(i) * Room(i) == U64
  {
    if i == 0 {
      RoomAtZero();
    } else {
      ShiftTimesRoom(i - 1);
      assert Shift(i) * Room(i) == Shift(i - 1) * Room(i - 1);
    }
  }

  /** `payload << shift` in a u64, where the bits shifted out at the top are lost. */
  function ShiftedPayload(b: byte, i: nat): nat {
    (b % 128) * Shift(i) % U64
  }

  lemma MulLess(c: nat, a: nat, b: nat)
    requires c > 0 && a < b
    ensures c * a < c * b
  {
  }

  lemma SmallMod(x: nat, m: nat)
    requires x < m
    ensures x % m == x
  {
  }

  lemma TopByteShift(b: byte)
    ensures ShiftedPayload(b, 9) == Shift(9) * (b % 2)
  {
    ShiftTimesRoom(9);
    assert Shift(9) == 0x8000_0000_0000_0000;
  }

  lemma LowByteShift(b: byte, i: nat)
    requires i < 9
    ensures ShiftedPayload(b, i) == Shift(i) * (b % 128)
  {
    ShiftTimesRoom(i);
    var x := Shift(i) * (b % 128);
    assert x < U64 by {
      if Shift(i) > 0 {
        assert Room(i) == 128 * Room(i + 1) && Room(i + 1) >= 1;
        MulLess(Shift(i), b % 128, Room(i));
      }
    }
    assert (b % 128) * Shift(i) == x;
    SmallMod(x, U64);
  }

  /** What the loop returns when it has `result` from `i` bytes and the bytes after them decode to `tail`. */
  function Resume(result: nat, i: nat, tail: Outcome<(nat, Bytes)>): Outcome<(nat, Bytes)> {
    if tail.Ok? then Ok((result + Shift(i) * tail.value.0, tail.value.1)) else Err(tail.error)
  }

  lemma ResumeStep(result: nat, rest: Bytes, i: nat)
    requires i < 10 && rest != []
    ensures Resume(result, i, DecodeVaruAt(rest, i)) ==
      var next := result + ShiftedPayload(rest[0], i);
      if rest[0] < 128 then Ok((next, rest[1..])) else Resume(next, i + 1, DecodeVaruAt(rest[1..], i + 1))
  {
    var b := rest[0];
    if i == 9 {
      TopByteShift(b);
    } else {
      LowByteShift(b, i);
      var tail := DecodeVaruAt(rest[1..], i + 1);
      if b >= 128 && tail.Ok? {
        DistributeShift(i, b - 128, tail.value.0);
      }
    }
  }

  lemma DistributeShift(i: nat, low: nat, high: nat)
    ensures Shift(i) * (low + 128 * high) == Shift(i) * low + Shift(i + 1) * high
  {
  }

  /** The decoding loop: `result |= payload << shift`; the shifted payload never meets a set bit. */
  method DecodeVaruLoop(input: Bytes) returns (r: Outcome<(nat, Bytes)>)
    ensures r == DecodeVaruAt(input, 0)
  {
    var rest := input;
    var result: nat := 0;
    for i := 0 to 10
      invariant DecodeVaruAt(input, 0) == Resume(result, i, DecodeVaruAt(rest, i))
    {
      if rest == [] {
        return Err(CoreEof);
      }
      ResumeStep(result, rest, i);
      var b := rest[0];
      rest := rest[1..];
      result := result + ShiftedPayload(b, i);
      if b < 128 {
        return Ok((result, rest));
      }
    }
    return Err(InvalidVarint);
  }

  /******* Fixed-width integers *******/

  function Pow256(k: nat): nat {
    if k == 0 then 1 else 256 * Pow256(k - 1)
  }

  /** `n` as `k` little-endian bytes. */
  function Le(n: nat, k: nat): (out: Bytes)
    ensures |out| == k
    decreases k
  {
    if k == 0 then [] else [n % 256] + Le(n / 256, k - 1)
  }

  function FromLe(b: Bytes): (n: nat)
    ensures n < Pow256(|b|)
  {
    if b == [] then 0 else b[0] + 256 * FromLe(b[1..])
  }

  lemma {:induction false} LeRoundTrip(n: nat, k: nat)
    requires n < Pow256(k)
    ensures FromLe(Le(n, k)) == n
    decreases k
  {
    if k > 0 {
      LeRoundTrip(n / 256, k - 1);
      assert Le(n, k)[1..] == Le(n / 256, k - 1);
    }
  }

  lemma Pow256Values()
    ensures Pow256(2) == U16 && Pow256(4) == U32 && Pow256(8) == U64
  {
    assert Pow256(2) == 256 * 256;
    assert Pow256(4) == 256 * 256 * Pow256(2);
    assert Pow256(6) == 256 * 256 * Pow256(4);
    assert Pow256(8) == 256 * 256 * Pow256(6);
  }

  /** `n` as `k` big-endian bytes. */
  function Be(n: nat, k: nat): (out: Bytes)
    ensures |out| == k
    decreases k
  {
    if k == 0 then [] else Be(n / 256, k - 1) + [n % 256]
  }

  function FromBe(b: Bytes): (n: nat)
    ensures n < Pow256(|b|)
  {
    if b == [] then 0 else 256 * FromBe(b[..|b| - 1]) + b[|b| - 1]
  }

  lemma {:induction false} BeRoundTrip(n: nat, k: nat)
    requires n < Pow256(k)
    ensures FromBe(Be(n, k)) == n
    decreases k
  {
    if k > 0 {
      BeRoundTrip(n / 256, k - 1);
      assert Be(n, k)[..k - 1] == Be(n / 256, k - 1);
    }
  }

  lemma {:induction false} BeOfFromBe(b: Bytes)
    ensures Be(FromBe(b), |b|) == b
  {
    if b != [] {
      var n := |b| - 1;
      BeOfFromBe(b[..n]);
      assert FromBe(b) % 256 == b[n] && FromBe(b) / 256 == FromBe(b[..n]);
      assert b == b[..n] + [b[n]];
    }
  }

  /** Reads a `k`-byte little-endian field at `offset`. */
  function LeAt(b: Bytes, offset: nat, k: nat): (n: nat)
    requires offset + k <= |b|
    ensures n < Pow256(k)
  {
    FromLe(b[offset..offset + k])
  }

  /******* Record frames *******/

  const FRAME_HEADER_LEN: nat := 8

  /** `len u32 LE, crc u32 LE, payload`. */
  function Frame(crc: Crc, payload: Bytes): (out: Bytes)
    ensures |out| == FRAME_HEADER_LEN + |payload|
  {
    Le(|payload|, 4) + Le(crc(payload), 4) + payload
  }

  function EncodeFrame(crc: Crc, payload: Bytes): (r: Outcome<Bytes>) {
    if |payload| < U32 then Ok(Frame(crc, payload)) else Err(FrameTooLarge)
  }

  /** Splits one frame off the front: its payload and the bytes after it. */
  function DecodeFrame(crc: Crc, input: Bytes): (r: Outcome<(Bytes, Bytes)>)
    ensures r.Ok? ==> |r.value.1| + FRAME_HEADER_LEN <= |input| && r.value.1 == input[|input| - |r.value.1|..]
  {
    if |input| < FRAME_HEADER_LEN then Err(FormatEof)
    else
      var len := LeAt(input, 0, 4);
      var expected := LeAt(input, 4, 4);
      if |input| < FRAME_HEADER_LEN + len then Err(FormatEof)
      else
        var payload := input[FRAME_HEADER_LEN..FRAME_HEADER_LEN + len];
        if expected != crc(payload) then Err(FrameCrcMismatch)
        else Ok((payload, input[FRAME_HEADER_LEN + len..]))
  }

  lemma FrameFields(crc: Crc, payload: Bytes, rest: Bytes)
    requires |payload| < U32
    ensures var f := Frame(crc, payload) + rest;
      LeAt(f, 0, 4) == |payload| && LeAt(f, 4, 4) == crc(payload)
      && f[FRAME_HEADER_LEN..FRAME_HEADER_LEN + |payload|] == payload
      && f[FRAME_HEADER_LEN + |payload|..] == rest
  {
    Pow256Values();
    var len, sum := Le(|payload|, 4), Le(crc(payload), 4);
    LeRoundTrip(|payload|, 4);
    LeRoundTrip(crc(payload), 4);
    FourParts(len, sum, payload, rest);
  }

  lemma FourParts(a: Bytes, b: Bytes, c: Bytes, d: Bytes)
    ensures var s := a + b + c + d;
      s[0..|a|] == a && s[|a|..|a| + |b|] == b && s[|a| + |b|..|a| + |b| + |c|] == c && s[|a| + |b| + |c|..] == d
  {
  }

  lemma FrameRoundTrip(crc: Crc, payload: Bytes, rest: Bytes)
    requires |payload| < U32
    ensures DecodeFrame(crc, Frame(crc, payload) + rest) == Ok((payload, rest))
  {
    FrameFields(crc, payload, rest);
  }

  /** A frame cut anywhere short of its end is refused for its length alone, whatever the checksum. */
  lemma CutFrameFails(crc: Crc, payload: Bytes, cut: nat)
    requires |payload| < U32
    requires cut < FRAME_HEADER_LEN + |payload|
    ensures DecodeFrame(crc, Frame(crc, payload)[..cut]) == Err(FormatEof)
  {
    var part := Frame(crc, payload)[..cut];
    if cut >= FRAME_HEADER_LEN {
      FrameFields(crc, payload, []);
      assert part[0..4] == (Frame(crc, payload) + [])[0..4];
    }
  }

  lemma {:induction false} LeOfFromLe(b: Bytes)
    ensures Le(FromLe(b), |b|) == b
  {
    if b != [] {
      LeOfFromLe(b[1..]);
      var n := FromLe(b);
      assert n % 256 == b[0] && n / 256 == FromLe(b[1..]);
      assert b == [b[0]] + b[1..];
    }
  }

  /** The bytes a decoder splits a frame into: length, checksum, payload, rest. */
  lemma FrameSplits(input: Bytes, len: nat)
    requires |input| >= FRAME_HEADER_LEN + len
    ensures input == input[0..4] + input[4..8] + input[8..8 + len] + input[8 + len..]
  {
  }

  /** Decoding accepts exactly a frame at the front: the length it declares, and the checksum of its payload. */
  lemma DecodeFrameIff(crc: Crc, input: Bytes, payload: Bytes, rest: Bytes)
    ensures DecodeFrame(crc, input) == Ok((payload, rest)) <==> |payload| < U32 && input == Frame(crc, payload) + rest
  {
    hide Le, FromLe;
    Pow256Values();
    if DecodeFrame(crc, input) == Ok((payload, rest)) {
      FrameSplits(input, |payload|);
      LeOfFromLe(input[0..4]);
      LeOfFromLe(input[4..8]);
    }
    if |payload| < U32 && input == Frame(crc, payload) + rest {
      FrameRoundTrip(crc, payload, rest);
    }
  }

  /** Everything else is refused: a header or payload cut short for its length, anything longer for its checksum. */
  lemma DecodeFrameFails(crc: Crc, input: Bytes)
    ensures DecodeFrame(crc, input) == Err(FormatEof) <==>
      |input| < FRAME_HEADER_LEN || |input| < FRAME_HEADER_LEN + FromLe(input[..4])
    ensures DecodeFrame(crc, input).Err? ==> DecodeFrame(crc, input).error in {FormatEof, FrameCrcMismatch}
  {
    hide FromLe;
    assert |input| >= 4 ==> input[0..4] == input[..4];
  }

  /** A frame whose payload was damaged into one with another checksum is refused for it. */
  lemma DamagedFrameRefused(crc: Crc, payload: Bytes, damaged: Bytes, rest: Bytes)
    requires |damaged| == |payload| < U32 && crc(damaged) != crc(payload)
    ensures DecodeFrame(crc, Le(|payload|, 4) + Le(crc(payload), 4) + damaged + rest) == Err(FrameCrcMismatch)
  {
    hide Le, FromLe;
    Pow256Values();
    LeRoundTrip(|payload|, 4);
    LeRoundTrip(crc(payload), 4);
    FourParts(Le(|payload|, 4), Le(crc(payload), 4), damaged, rest);
  }

  /** The least significant byte comes first in the one encoding and last in the other. */
  lemma ByteOrder()
    ensures Le(0x0201, 2) == [1, 2] && Le(0x0403_0201, 4) == [1, 2, 3, 4]
    ensures Be(0x0102, 2) == [1, 2] && Be(0x0102_0304, 4) == [1, 2, 3, 4]
  {
    assert Le(0x04, 1) == [4] && Le(0x0403, 2) == [3, 4] && Le(0x04_0302, 3) == [2, 3, 4];
    assert Be(0x01, 1) == [1] && Be(0x0102, 2) == [1, 2] && Be(0x01_0203, 3) == [1, 2, 3];
  }
}

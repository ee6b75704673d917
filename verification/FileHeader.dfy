/** The 64-byte header every file of the engine starts with. */
module FileHeader {
  import opened Wrappers
  import opened Codec

  const HEADER_LEN: nat := 64
  const MAGIC: Bytes := [83, 75, 78, 68, 66, 0, 1, 0]
  const ENDIAN_LE: byte := 1
  const FORMAT_VERSION: u32 := 1

  datatype FileKind = WalFile | RowSegFile | ValSegFile | RunFile | ManifestFile

  function KindCode(k: FileKind): byte {
    match k
    case WalFile => 1
    case RowSegFile => 2
    case ValSegFile => 3
    case RunFile => 4
    case ManifestFile => 5
  }

  function KindOf(b: byte): Outcome<FileKind> {
    if b == 1 then Ok(WalFile)
    else if b == 2 then Ok(RowSegFile)
    else if b == 3 then Ok(ValSegFile)
    else if b == 4 then Ok(RunFile)
    else if b == 5 then Ok(ManifestFile)
    else Err(UnknownFileKind)
  }

  type Reserved = b: Bytes | |b| == 32 witness seq(32, _ => 0)

  datatype Header = Header(kind: FileKind, fileId: u32, created: u64, reserved: Reserved)

  /** The first 60 bytes, which the checksum in the last four covers. */
  function Body(h: Header): (b: Bytes)
    ensures |b| == 60
  {
    MAGIC + [KindCode(h.kind), ENDIAN_LE] + Le(HEADER_LEN, 2) + Le(FORMAT_VERSION, 4) + Le(h.fileId, 4)
    + Le(h.created, 8) + h.reserved
  }

  function Encode(crc: Crc, h: Header): (b: Bytes)
    ensures |b| == HEADER_LEN
  {
    Body(h) + Le(crc(Body(h)), 4)
  }

  function Decode(crc: Crc, bytes: Bytes): Outcome<Header> {
    if |bytes| < HEADER_LEN then Err(FormatEof)
    else if bytes[0..8] != MAGIC then Err(BadMagic)
    else
      var kind :- KindOf(bytes[8]);
      if bytes[9] != ENDIAN_LE then Err(UnsupportedEndian)
      else if LeAt(bytes, 10, 2) != HEADER_LEN then Err(BadHeaderLength)
      else if LeAt(bytes, 12, 4) != FORMAT_VERSION then Err(UnsupportedFormatVersion)
      else if LeAt(bytes, 60, 4) != crc(bytes[0..60]) then Err(HeaderCrcMismatch)
      else
        Pow256Values();
        Ok(Header(kind, LeAt(bytes, 16, 4), LeAt(bytes, 20, 8), bytes[28..60]))
  }

  /** What every file starts with: the magic, its kind, the byte order, the length of the header and the format's version. */
  lemma HeaderOnDisk(crc: Crc, h: Header)
    ensures Encode(crc, h)[..16] == [0x53, 0x4B, 0x4E, 0x44, 0x42, 0, 1, 0] + [KindCode(h.kind), 1] + [64, 0] + [1, 0, 0, 0]
    ensures KindCode(WalFile) == 1 && KindCode(RowSegFile) == 2 && KindCode(ValSegFile) == 3 && KindCode(RunFile) == 4
  {
    hide Le, KindCode;
    HeaderNumbers();
    var fields := MAGIC + [KindCode(h.kind), ENDIAN_LE] + Le(HEADER_LEN, 2) + Le(FORMAT_VERSION, 4);
    assert Encode(crc, h) == fields + (Le(h.fileId, 4) + Le(h.created, 8) + h.reserved + Le(crc(Body(h)), 4));
    assert Encode(crc, h)[..16] == fields;
  }

  lemma HeaderNumbers()
    ensures Le(64, 2) == [64, 0] && Le(1, 4) == [1, 0, 0, 0]
    ensures KindCode(WalFile) == 1 && KindCode(RowSegFile) == 2 && KindCode(ValSegFile) == 3 && KindCode(RunFile) == 4
  {
    assert Le(0, 1) == [0] && Le(0, 3) == [0, 0, 0];
  }

  /** A header is read back from the front of any file that starts with it. */
  lemma HeaderRoundTrip(crc: Crc, h: Header, rest: Bytes)
    ensures Decode(crc, Encode(crc, h) + rest) == Ok(h)
  {
    hide Le, FromLe;
    Pow256Values();
    var f := Encode(crc, h) + rest;
    var len, ver, id := Le(HEADER_LEN, 2), Le(FORMAT_VERSION, 4), Le(h.fileId, 4);
    var at, sum := Le(h.created, 8), Le(crc(Body(h)), 4);
    assert f[0..8] == MAGIC && f[8] == KindCode(h.kind) && f[9] == ENDIAN_LE;
    assert f[10..12] == len && f[12..16] == ver && f[16..20] == id && f[20..28] == at && f[28..60] == h.reserved;
    assert f[60..64] == sum && f[0..60] == Body(h);
    LeRoundTrip(HEADER_LEN, 2);
    LeRoundTrip(FORMAT_VERSION, 4);
    LeRoundTrip(h.fileId, 4);
    LeRoundTrip(h.created, 8);
    LeRoundTrip(crc(Body(h)), 4);
  }

  /** A header is accepted exactly when it is one this writer makes; nothing after its 64 bytes matters. */
  lemma DecodeIff(crc: Crc, bytes: Bytes, h: Header)
    ensures Decode(crc, bytes) == Ok(h) <==> |bytes| >= HEADER_LEN && bytes[..HEADER_LEN] == Encode(crc, h)
  {
    hide Le, FromLe;
    Pow256Values();
    if Decode(crc, bytes) == Ok(h) {
      var b := bytes[..HEADER_LEN];
      assert b[0..8] == bytes[0..8] && b[10..12] == bytes[10..12] && b[12..16] == bytes[12..16];
      assert b[16..20] == bytes[16..20] && b[20..28] == bytes[20..28] && b[28..60] == bytes[28..60];
      assert b[60..64] == bytes[60..64];
      LeOfFromLe(bytes[10..12]);
      LeOfFromLe(bytes[12..16]);
      LeOfFromLe(bytes[16..20]);
      LeOfFromLe(bytes[20..28]);
      LeOfFromLe(bytes[60..64]);
      assert bytes[8] == KindCode(h.kind) && bytes[9] == ENDIAN_LE;
      assert bytes[0..60] == bytes[0..8] + [bytes[8], bytes[9]] + bytes[10..12] + bytes[12..16] + bytes[16..20]
                             + bytes[20..28] + bytes[28..60];
      assert b == bytes[0..60] + bytes[60..64];
    }
    if |bytes| >= HEADER_LEN && bytes[..HEADER_LEN] == Encode(crc, h) {
      HeaderRoundTrip(crc, h, bytes[HEADER_LEN..]);
      assert Encode(crc, h) + bytes[HEADER_LEN..] == bytes;
    }
  }

  /** A file that begins with a header of this kind, whatever its id, its date and its reserved bytes. */
  ghost predicate Begins(crc: Crc, file: Bytes, kind: FileKind) {
    |file| >= HEADER_LEN && exists h: Header :: h.kind == kind && file[..HEADER_LEN] == Encode(crc, h)
  }

  lemma BeginsIff(crc: Crc, file: Bytes, kind: FileKind)
    ensures Begins(crc, file, kind) <==>
      |file| >= HEADER_LEN && Decode(crc, file[..HEADER_LEN]).Ok? && Decode(crc, file[..HEADER_LEN]).value.kind == kind
  {
    hide Decode, Encode;
    if |file| >= HEADER_LEN {
      var front := file[..HEADER_LEN];
      assert front[..HEADER_LEN] == front;
      forall h: Header | front == Encode(crc, h)
        ensures Decode(crc, front) == Ok(h)
      {
        DecodeIff(crc, front, h);
      }
      if Decode(crc, front).Ok? {
        DecodeIff(crc, front, Decode(crc, front).value);
      }
    }
  }
}

/** Directory entries and the directory table (`directory_codec.rs`, `directory_table.rs`). */
module DirectoryTable {
  import opened Bytes
  import opened Results
  import opened Seals
  import opened RecordStream
  import opened TableImage
  import opened Utf8

  /** Names are kept as the bytes of their UTF-8 form. */
  datatype DirEntry = DirEntry(parent: u64, target: u64, name: seq<byte>)

  const ENTRY_MAGIC: seq<byte> := [0x44, 0x4e, 0x54, 0x31]  // "DNT1"
  const ENTRY_VERSION: u16 := 1
  const ENTRY_HEADER: nat := 40
  const ENTRY_CRC: nat := 32
  const NAME_MAX: nat := 255
  const TABLE_MAGIC: seq<byte> := [0x46, 0x53, 0x4c, 0x44, 0x49, 0x52, 0, 0]  // "FSLDIR\0\0"

  /** One path component. */
  predicate ValidName(name: seq<byte>) {
    && name != [] && name != [0x2e] && name != [0x2e, 0x2e]
    && 0x2f !in name && 0 !in name
    && |name| <= NAME_MAX
  }

  predicate ValidEntry(e: DirEntry) {
    e.parent != 0 && e.target != 0 && ValidUtf8(e.name) && ValidName(e.name)
  }

  function Prefix(len: u32, nameLen: u16, parent: u64, target: u64): (s: seq<byte>)
    ensures |s| == ENTRY_CRC
  {
    ENTRY_MAGIC + Le16(ENTRY_VERSION) + Le16(0) + Le32(len) + Le16(nameLen) + Le16(0) + Le64(parent) + Le64(target)
  }

  function EncodeEntry(crc: Checksum, e: DirEntry): (s: seq<byte>)
    ensures ValidEntry(e) ==> |s| == ENTRY_HEADER + |e.name|
  {
    if !ValidEntry(e) then []
    else Seal(crc, Prefix(ENTRY_HEADER + |e.name|, |e.name|, e.parent, e.target), Zeros(4) + e.name)
  }

  function DecodeEntry(crc: Checksum, bytes: seq<byte>): (r: Result<DirEntry>) {
    if |bytes| < ENTRY_HEADER then Err(UnexpectedEof)
    else if bytes[0..4] != ENTRY_MAGIC || Read16(bytes, 4) != ENTRY_VERSION then Err(InvalidData)
    else if Read16(bytes, 6) != 0 || Read16(bytes, 14) != 0 || Read32(bytes, 36) != 0 then Err(InvalidData)
    else
      var len, nameLen := Read32(bytes, 8), Read16(bytes, 12);
      if len != ENTRY_HEADER + nameLen then Err(InvalidData)
      else if |bytes| < len then Err(UnexpectedEof)
      else if |bytes| != len || !Intact(crc, bytes, ENTRY_CRC) then Err(InvalidData)
      else
        var e := DirEntry(Read64(bytes, 16), Read64(bytes, 24), bytes[ENTRY_HEADER..]);
        if ValidEntry(e) then Ok(e) else Err(InvalidData)
  }

  function DecodeHead(crc: Checksum, bytes: seq<byte>): (r: Result<(DirEntry, nat)>) {
    if |bytes| < ENTRY_HEADER then Err(UnexpectedEof)
    else
      var len := Read32(bytes, 8);
      if len < ENTRY_HEADER then Err(InvalidData)
      else if len > |bytes| then Err(UnexpectedEof)
      else
        var e :- DecodeEntry(crc, bytes[..len]);
        Ok((e, len))
  }

  function DirectoryFormat(crc: Checksum): TableFormat<DirEntry, (u64, seq<byte>)> {
    TableFormat(TABLE_MAGIC, e => EncodeEntry(crc, e), bytes => DecodeHead(crc, bytes), ValidEntry,
                (e: DirEntry) => (e.parent, e.name))
  }

  lemma PrefixReads(len: u32, nameLen: u16, parent: u64, target: u64, rest: seq<byte>)
    ensures var r := Prefix(len, nameLen, parent, target) + rest;
            && r[0..4] == ENTRY_MAGIC && Read16(r, 4) == ENTRY_VERSION && Read16(r, 6) == 0
            && Read32(r, 8) == len && Read16(r, 12) == nameLen && Read16(r, 14) == 0
            && Read64(r, 16) == parent && Read64(r, 24) == target
  {
    hide Le16, Le32, Le64;
    var r := Prefix(len, nameLen, parent, target) + rest;
    assert r[4..6] == Le16(ENTRY_VERSION) && r[6..8] == Le16(0) && r[8..12] == Le32(len);
    assert r[12..14] == Le16(nameLen) && r[14..16] == Le16(0);
    assert r[16..24] == Le64(parent) && r[24..32] == Le64(target);
    ReadsBack16(r, 4, ENTRY_VERSION);
    ReadsBack16(r, 6, 0);
    ReadsBack32(r, 8, len);
    ReadsBack16(r, 12, nameLen);
    ReadsBack16(r, 14, 0);
    ReadsBack64(r, 16, parent);
    ReadsBack64(r, 24, target);
  }

  lemma PrefixFrom(r: seq<byte>)
    requires |r| >= ENTRY_CRC && r[0..4] == ENTRY_MAGIC && Read16(r, 4) == ENTRY_VERSION
    requires Read16(r, 6) == 0 && Read16(r, 14) == 0
    ensures r[..ENTRY_CRC] == Prefix(Read32(r, 8), Read16(r, 12), Read64(r, 16), Read64(r, 24))
  {
    hide Le16, Le32, Le64, Read16, Read32, Read64;
    assert r[..ENTRY_CRC] == r[0..4] + r[4..6] + r[6..8] + r[8..12] + r[12..14] + r[14..16] + r[16..24] + r[24..32];
  }

  lemma DecodeEncoded(crc: Checksum, e: DirEntry)
    requires ValidEntry(e)
    ensures Read32(EncodeEntry(crc, e), 8) == |EncodeEntry(crc, e)|
    ensures DecodeEntry(crc, EncodeEntry(crc, e)) == Ok(e)
  {
    hide Prefix, Read16, Read32, Read64, Seal, Intact, ValidUtf8, ValidName;
    var bytes := EncodeEntry(crc, e);
    NameFits(e);
    var prefix := Prefix(|bytes|, |e.name|, e.parent, e.target);
    SealParts(crc, prefix, Zeros(4) + e.name);
    assert bytes == prefix + bytes[ENTRY_CRC..];
    PrefixReads(|bytes|, |e.name|, e.parent, e.target, bytes[ENTRY_CRC..]);
    assert bytes[36..40] == bytes[36..][..4] == Zeros(4);
    ZeroWord();
    ReadsBack32(bytes, 36, 0);
    assert bytes[ENTRY_HEADER..] == bytes[36..][4..] == e.name;
  }

  lemma NameFits(e: DirEntry)
    requires ValidEntry(e)
    ensures |e.name| <= NAME_MAX
  {
  }

  lemma ZeroWord()
    ensures Le32(0) == Zeros(4)
  {
    AllZeroIsZeros(Le32(0));
  }

  lemma DecodedIsCanonical(crc: Checksum, bytes: seq<byte>)
    requires DecodeEntry(crc, bytes).Ok?
    ensures ValidEntry(DecodeEntry(crc, bytes).value)
    ensures bytes == EncodeEntry(crc, DecodeEntry(crc, bytes).value)
  {
    hide Prefix, Read16, Read32, Read64, Seal, Intact, ValidUtf8, ValidName;
    IntactIsSealed(crc, bytes, ENTRY_CRC);
    PrefixFrom(bytes);
    ZeroWord();
    assert bytes[36..] == bytes[36..40] + bytes[ENTRY_HEADER..];
  }

  lemma FormatSound(crc: Checksum)
    ensures Sound(DirectoryFormat(crc))
  {
    hide EncodeEntry, DecodeEntry, Read32, ValidEntry;
    var f := DirectoryFormat(crc);
    forall e: DirEntry, rest: seq<byte> | ValidEntry(e)
      ensures f.enc(e) != [] && f.dec(f.enc(e) + rest) == Ok((e, |f.enc(e)|))
    {
      var r := EncodeEntry(crc, e);
      DecodeEncoded(crc, e);
      assert (r + rest)[..|r|] == r;
      assert (r + rest)[8..12] == r[8..12];
      ReadsBack32(r + rest, 8, |r|);
    }
    forall bytes: seq<byte> | f.dec(bytes).Ok? ensures CanonicalAt(f.enc, f.dec, f.valid, bytes) {
      DecodedIsCanonical(crc, bytes[..Read32(bytes, 8)]);
    }
  }

  /** Storing directory entries and loading them back is the identity, and only stored images load. */
  lemma DirectoryTableRoundTrips(crc: Checksum, capacity: nat, entries: seq<DirEntry>, image: seq<byte>)
    requires capacity < U64_LIMIT && |image| == capacity
    ensures Encodable(DirectoryFormat(crc), capacity, entries) ==>
              Parse(crc, DirectoryFormat(crc), Image(crc, DirectoryFormat(crc), capacity, entries)) == Ok(entries)
    ensures Parse(crc, DirectoryFormat(crc), image) == Ok(entries) ==>
              Encodable(DirectoryFormat(crc), capacity, entries)
                  && image == Image(crc, DirectoryFormat(crc), capacity, entries)
  {
    FormatSound(crc);
    if Encodable(DirectoryFormat(crc), capacity, entries) {
      ParseImage(crc, DirectoryFormat(crc), capacity, entries);
    }
    if Parse(crc, DirectoryFormat(crc), image) == Ok(entries) {
      ParsedIsCanonical(crc, DirectoryFormat(crc), image);
    }
  }
}

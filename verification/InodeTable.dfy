/** Inode records and the inode table (`inode_codec.rs`, `inode_table.rs`). */
module InodeTable {
  import opened Bytes
  import opened Results
  import opened Sequences
  import opened Seals
  import opened RecordStream
  import opened TableImage

  datatype InodeKind = File | Directory
  datatype Inode = Inode(id: u64, kind: InodeKind, blocks: seq<u64>)

  const INODE_MAGIC: seq<byte> := [0x49, 0x4e, 0x4f, 0x31]  // "INO1"
  const INODE_VERSION: u16 := 1
  const INODE_HEADER: nat := 32
  const INODE_CRC: nat := 24
  const TABLE_MAGIC: seq<byte> := [0x46, 0x53, 0x4c, 0x49, 0x4e, 0x4f, 0x44, 0]  // "FSLINOD\0"

  /** What `encode_inode` accepts. */
  predicate ValidInode(inode: Inode) {
    && inode.id != 0
    && INODE_HEADER + 8 * |inode.blocks| < 0x1_0000_0000
    && NoRepeats(inode.blocks)
  }

  function KindCode(kind: InodeKind): u16 {
    if kind.File? then 1 else 2
  }

  function Prefix(kind: u16, len: u32, id: u64, count: u32): (s: seq<byte>)
    ensures |s| == INODE_CRC
  {
    INODE_MAGIC + Le16(INODE_VERSION) + Le16(kind) + Le32(len) + Le64(id) + Le32(count)
  }

  function EncodeInode(crc: Checksum, inode: Inode): (s: seq<byte>)
    ensures ValidInode(inode) ==> |s| == INODE_HEADER + 8 * |inode.blocks|
  {
    if !ValidInode(inode) then []
    else
      var len := INODE_HEADER + 8 * |inode.blocks|;
      Seal(crc, Prefix(KindCode(inode.kind), len, inode.id, |inode.blocks|), Zeros(4) + WordsLe(inode.blocks))
  }

  /** `decode_inode` on exactly one record. */
  function DecodeInode(crc: Checksum, bytes: seq<byte>): (r: Result<Inode>) {
    if |bytes| < INODE_HEADER then Err(UnexpectedEof)
    else if bytes[0..4] != INODE_MAGIC || Read16(bytes, 4) != INODE_VERSION then Err(InvalidData)
    else if !AllZero(bytes[28..INODE_HEADER]) then Err(InvalidData)
    else
      var len, count := Read32(bytes, 8), Read32(bytes, 20);
      if len != INODE_HEADER + 8 * count then Err(InvalidData)
      else if |bytes| < len then Err(UnexpectedEof)
      else if |bytes| != len || !Intact(crc, bytes, INODE_CRC) then Err(InvalidData)
      else
        var id, code := Read64(bytes, 12), Read16(bytes, 6);
        if id == 0 || (code != 1 && code != 2) then Err(InvalidData)
        else
          var blocks := ReadWords(bytes, INODE_HEADER, count);
          if !NoRepeats(blocks) then Err(InvalidData)
          else Ok(Inode(id, if code == 1 then File else Directory, blocks))
  }

  /** The record at the head of a payload, delimited by its own length field. */
  function DecodeHead(crc: Checksum, bytes: seq<byte>): (r: Result<(Inode, nat)>) {
    if |bytes| < INODE_HEADER then Err(UnexpectedEof)
    else
      var len := Read32(bytes, 8);
      if len < INODE_HEADER then Err(InvalidData)
      else if len > |bytes| then Err(UnexpectedEof)
      else
        var inode :- DecodeInode(crc, bytes[..len]);
        Ok((inode, len))
  }

  function InodeFormat(crc: Checksum): TableFormat<Inode, u64> {
    TableFormat(TABLE_MAGIC, inode => EncodeInode(crc, inode), bytes => DecodeHead(crc, bytes), ValidInode,
        (inode: Inode) => inode.id)
  }

  lemma PrefixReads(kind: u16, len: u32, id: u64, count: u32, rest: seq<byte>)
    ensures var r := Prefix(kind, len, id, count) + rest;
            && r[0..4] == INODE_MAGIC && Read16(r, 4) == INODE_VERSION && Read16(r, 6) == kind
            && Read32(r, 8) == len && Read64(r, 12) == id && Read32(r, 20) == count
  {
    hide Le16, Le32, Le64;
    var r := Prefix(kind, len, id, count) + rest;
    assert r[4..6] == Le16(INODE_VERSION) && r[6..8] == Le16(kind) && r[8..12] == Le32(len);
    assert r[12..20] == Le64(id) && r[20..24] == Le32(count);
    ReadsBack16(r, 4, INODE_VERSION);
    ReadsBack16(r, 6, kind);
    ReadsBack32(r, 8, len);
    ReadsBack64(r, 12, id);
    ReadsBack32(r, 20, count);
  }

  lemma PrefixFrom(r: seq<byte>)
    requires |r| >= INODE_CRC && r[0..4] == INODE_MAGIC && Read16(r, 4) == INODE_VERSION
    ensures r[..INODE_CRC] == Prefix(Read16(r, 6), Read32(r, 8), Read64(r, 12), Read32(r, 20))
  {
    hide Le16, Le32, Le64, Read16, Read32, Read64;
    assert r[..INODE_CRC] == r[0..4] + r[4..6] + r[6..8] + r[8..12] + r[12..20] + r[20..24];
  }

  lemma DecodeEncoded(crc: Checksum, inode: Inode)
    requires ValidInode(inode)
    ensures Read32(EncodeInode(crc, inode), 8) == |EncodeInode(crc, inode)|
    ensures DecodeInode(crc, EncodeInode(crc, inode)) == Ok(inode)
  {
    hide Prefix, Read16, Read32, Read64, Seal, Intact, WordsLe, ReadWords;
    var bytes := EncodeInode(crc, inode);
    var words := WordsLe(inode.blocks);
    var prefix := Prefix(KindCode(inode.kind), |bytes|, inode.id, |inode.blocks|);
    SealParts(crc, prefix, Zeros(4) + words);
    assert bytes == prefix + bytes[INODE_CRC..];
    PrefixReads(KindCode(inode.kind), |bytes|, inode.id, |inode.blocks|, bytes[INODE_CRC..]);
    assert bytes[28..INODE_HEADER] == bytes[28..][..4] == Zeros(4);
    assert bytes[INODE_HEADER..|bytes|] == bytes[28..][4..] == words;
    ReadWordsBack(bytes, INODE_HEADER, inode.blocks);
  }

  lemma DecodedIsCanonical(crc: Checksum, bytes: seq<byte>)
    requires DecodeInode(crc, bytes).Ok?
    ensures ValidInode(DecodeInode(crc, bytes).value)
    ensures bytes == EncodeInode(crc, DecodeInode(crc, bytes).value)
  {
    hide Prefix, Read16, Read32, Read64, Seal, Intact, WordsLe, ReadWords;
    IntactIsSealed(crc, bytes, INODE_CRC);
    PrefixFrom(bytes);
    AllZeroIsZeros(bytes[28..INODE_HEADER]);
    WordsOfBytes(bytes, INODE_HEADER, Read32(bytes, 20));
    assert bytes[28..] == bytes[28..INODE_HEADER] + bytes[INODE_HEADER..|bytes|];
  }

  /** Inode records are self-delimiting and canonical, so the table lemmas apply to them. */
  lemma FormatSound(crc: Checksum)
    ensures Sound(InodeFormat(crc))
  {
    hide EncodeInode, DecodeInode, Read32;
    var f := InodeFormat(crc);
    forall inode: Inode, rest: seq<byte> | ValidInode(inode)
      ensures f.enc(inode) != [] && f.dec(f.enc(inode) + rest) == Ok((inode, |f.enc(inode)|))
    {
      var r := EncodeInode(crc, inode);
      DecodeEncoded(crc, inode);
      assert (r + rest)[..|r|] == r;
      assert (r + rest)[8..12] == r[8..12];
      ReadsBack32(r + rest, 8, |r|);
    }
    forall bytes: seq<byte> | f.dec(bytes).Ok? ensures CanonicalAt(f.enc, f.dec, f.valid, bytes) {
      DecodedIsCanonical(crc, bytes[..Read32(bytes, 8)]);
    }
  }

  /** Storing inodes and loading them back is the identity, and only stored images load. */
  lemma InodeTableRoundTrips(crc: Checksum, capacity: nat, inodes: seq<Inode>, image: seq<byte>)
    requires capacity < U64_LIMIT && |image| == capacity
    ensures Encodable(InodeFormat(crc), capacity, inodes) ==>
              Parse(crc, InodeFormat(crc), Image(crc, InodeFormat(crc), capacity, inodes)) == Ok(inodes)
    ensures Parse(crc, InodeFormat(crc), image) == Ok(inodes) ==>
              Encodable(InodeFormat(crc), capacity, inodes) && image == Image(crc, InodeFormat(crc), capacity, inodes)
  {
    FormatSound(crc);
    if Encodable(InodeFormat(crc), capacity, inodes) {
      ParseImage(crc, InodeFormat(crc), capacity, inodes);
    }
    if Parse(crc, InodeFormat(crc), image) == Ok(inodes) {
      ParsedIsCanonical(crc, InodeFormat(crc), image);
    }
  }
}

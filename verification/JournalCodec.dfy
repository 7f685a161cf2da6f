/** The persistent journal records of `journal_codec.rs`. */
module JournalCodec {
  import opened Bytes
  import opened Blocks
  import opened Results
  import opened Journal
  import opened RecordStream
  import opened Seals

  const RECORD_MAGIC: seq<byte> := [0x4a, 0x4e, 0x4c, 0x31]  // "JNL1"
  const RECORD_VERSION: u16 := 1
  const HEADER_SIZE: nat := 32
  const CHECKSUM_OFFSET: nat := 28
  const KIND_BEGIN: byte := 1
  const KIND_WRITE: byte := 2
  const KIND_COMMIT: byte := 3

  /** The header up to the checksum field. */
  function Prefix(kind: byte, len: u32, txid: u64, block: u64): (r: seq<byte>)
    ensures |r| == CHECKSUM_OFFSET
  {
    RECORD_MAGIC + Le16(RECORD_VERSION) + [kind, 0] + Le32(len) + Le64(txid) + Le64(block)
  }

  function KindOf(e: Entry): byte {
    match e
    case Begin(_) => KIND_BEGIN
    case Write(_, _, _) => KIND_WRITE
    case Commit(_) => KIND_COMMIT
  }

  function BlockOf(e: Entry): u64 {
    if e.Write? then e.block else 0
  }

  function PayloadOf(e: Entry): (p: seq<byte>)
    ensures |p| <= BLOCK_SIZE
  {
    if e.Write? then e.data else []
  }

  function RecordLen(e: Entry): (n: nat)
    ensures n >= HEADER_SIZE
  {
    HEADER_SIZE + |PayloadOf(e)|
  }

  function PrefixOf(e: Entry): (r: seq<byte>)
    ensures |r| == CHECKSUM_OFFSET
  {
    Prefix(KindOf(e), RecordLen(e), e.txid, BlockOf(e))
  }

  function EncodeEntry(crc: Checksum, e: Entry): (r: seq<byte>)
    ensures |r| == RecordLen(e)
  {
    Seal(crc, PrefixOf(e), PayloadOf(e))
  }

  function Encoder(crc: Checksum): Entry -> seq<byte> {
    e => EncodeEntry(crc, e)
  }

  function EncodeStream(crc: Checksum, es: seq<Entry>): seq<byte> {
    EncodeAll(Encoder(crc), es)
  }

  /** Reads the record at the head of `bytes`; also returns its length. */
  function DecodeRecord(crc: Checksum, bytes: seq<byte>): (r: Result<(Entry, nat)>)
    ensures r.Ok? ==> HEADER_SIZE <= r.value.1 <= |bytes|
  {
    if |bytes| < HEADER_SIZE then Err(InvalidData)
    else if bytes[0..4] != RECORD_MAGIC then Err(InvalidData)
    else if Read16(bytes, 4) != RECORD_VERSION then Err(InvalidData)
    else if bytes[7] != 0 then Err(InvalidData)
    else
      var len := Read32(bytes, 8);
      if len < HEADER_SIZE || len > |bytes| then Err(InvalidData)
      else if !Intact(crc, bytes[..len], CHECKSUM_OFFSET) then Err(InvalidData)
      else
        var entry :- EntryOf(bytes[6], Read64(bytes, 12), Read64(bytes, 20), bytes[HEADER_SIZE..len]);
        Ok((entry, len))
  }

  function EntryOf(kind: byte, txid: u64, block: u64, payload: seq<byte>): (r: Result<Entry>) {
    if kind == KIND_BEGIN then
      if block != 0 || payload != [] then Err(InvalidData) else Ok(Begin(txid))
    else if kind == KIND_WRITE then
      if |payload| != BLOCK_SIZE then Err(InvalidData) else Ok(Write(txid, block, payload))
    else if kind == KIND_COMMIT then
      if block != 0 || payload != [] then Err(InvalidData) else Ok(Commit(txid))
    else Err(InvalidData)
  }

  function Decoder(crc: Checksum): seq<byte> -> Result<(Entry, nat)> {
    bytes => DecodeRecord(crc, bytes)
  }

  function DecodeStream(crc: Checksum, bytes: seq<byte>): (r: Result<seq<Entry>>) {
    DecodeAll(Decoder(crc), bytes)
  }

  // ------------------------------------------------------------------------ one record

  lemma PrefixFields(kind: byte, len: u32, txid: u64, block: u64, rest: seq<byte>)
    ensures var r := Prefix(kind, len, txid, block) + rest;
            && r[0..4] == RECORD_MAGIC
            && Read16(r, 4) == RECORD_VERSION
            && r[6] == kind && r[7] == 0
            && Read32(r, 8) == len
            && Read64(r, 12) == txid
            && Read64(r, 20) == block
  {
    hide Le16, Le32, Le64;
    var r := Prefix(kind, len, txid, block) + rest;
    assert r[4..6] == Le16(RECORD_VERSION);
    assert r[8..12] == Le32(len);
    assert r[12..20] == Le64(txid);
    assert r[20..28] == Le64(block);
    ReadsBack16(r, 4, RECORD_VERSION);
    ReadsBack32(r, 8, len);
    ReadsBack64(r, 12, txid);
    ReadsBack64(r, 20, block);
  }

  lemma PrefixFromFields(r: seq<byte>)
    requires |r| >= CHECKSUM_OFFSET
    requires r[0..4] == RECORD_MAGIC && Read16(r, 4) == RECORD_VERSION && r[7] == 0
    ensures r[..CHECKSUM_OFFSET] == Prefix(r[6], Read32(r, 8), Read64(r, 12), Read64(r, 20))
  {
    hide Le16, Le32, Le64, Read16, Read32, Read64;
    assert r[..CHECKSUM_OFFSET] == r[0..4] + r[4..6] + [r[6], r[7]] + r[8..12] + r[12..20] + r[20..28];
  }

  /** Decoding what was encoded gives the entry back, whatever follows it. */
  lemma DecodeEncoded(crc: Checksum, e: Entry, rest: seq<byte>)
    ensures DecodeRecord(crc, EncodeEntry(crc, e) + rest) == Ok((e, RecordLen(e)))
  {
    hide Prefix, Read16, Read32, Read64, Seal, Intact;
    var r := EncodeEntry(crc, e);
    var bytes := r + rest;
    SealParts(crc, PrefixOf(e), PayloadOf(e));
    assert bytes[..|r|] == r;
    assert bytes == PrefixOf(e) + bytes[CHECKSUM_OFFSET..];
    PrefixFields(KindOf(e), RecordLen(e), e.txid, BlockOf(e), bytes[CHECKSUM_OFFSET..]);
    assert bytes[HEADER_SIZE..|r|] == r[HEADER_SIZE..];
  }

  /** A record that decodes is exactly the encoding of its entry. */
  lemma DecodedIsCanonical(crc: Checksum, bytes: seq<byte>)
    requires DecodeRecord(crc, bytes).Ok?
    ensures var (e, n) := DecodeRecord(crc, bytes).value; bytes[..n] == EncodeEntry(crc, e)
  {
    hide Prefix, Read16, Read32, Read64, Seal, Intact;
    var (e, n) := DecodeRecord(crc, bytes).value;
    IntactIsSealed(crc, bytes[..n], CHECKSUM_OFFSET);
    PrefixFromFields(bytes);
    assert bytes[..n][..CHECKSUM_OFFSET] == bytes[..CHECKSUM_OFFSET];
    assert bytes[..n][CHECKSUM_OFFSET + 4..] == bytes[HEADER_SIZE..n];
  }

  lemma CodecInverts(crc: Checksum)
    ensures Inverts(Encoder(crc), Decoder(crc), (e: Entry) => true)
    ensures Canonical(Encoder(crc), Decoder(crc), (e: Entry) => true)
  {
    hide EncodeEntry, DecodeRecord;
    forall e: Entry, rest: seq<byte> ensures Decoder(crc)(Encoder(crc)(e) + rest) == Ok((e, |Encoder(crc)(e)|)) {
      DecodeEncoded(crc, e, rest);
    }
    forall bytes: seq<byte> | Decoder(crc)(bytes).Ok?
      ensures CanonicalAt(Encoder(crc), Decoder(crc), (e: Entry) => true, bytes)
    {
      DecodedIsCanonical(crc, bytes);
    }
  }

  // ------------------------------------------------------------------------ record streams

  lemma DecodeEncodedStream(crc: Checksum, es: seq<Entry>)
    ensures DecodeStream(crc, EncodeStream(crc, es)) == Ok(es)
  {
    CodecInverts(crc);
    DecodeEncodeAll(Encoder(crc), Decoder(crc), (e: Entry) => true, es);
  }

  lemma DecodedStreamIsCanonical(crc: Checksum, bytes: seq<byte>)
    requires DecodeStream(crc, bytes).Ok?
    ensures EncodeStream(crc, DecodeStream(crc, bytes).value) == bytes
  {
    CodecInverts(crc);
    EncodeDecodeAll(Encoder(crc), Decoder(crc), (e: Entry) => true, bytes);
  }

  /** Builds the stream in one growing buffer, patching each checksum in place. */
  method EncodeEntries(crc: Checksum, es: seq<Entry>) returns (encoded: seq<byte>)
    ensures encoded == EncodeStream(crc, es)
    ensures DecodeStream(crc, encoded) == Ok(es)
  {
    hide EncodeAll, DecodeStream;
    EncodeNothing(Encoder(crc));
    encoded := [];
    var i := 0;
    while i < |es|
      invariant 0 <= i <= |es|
      invariant encoded == EncodeStream(crc, es[..i])
    {
      hide PrefixOf, PayloadOf, Seal, Patch;
      var e := es[i];
      var start := |encoded|;
      PatchSeals(crc, encoded, PrefixOf(e), PayloadOf(e));
      encoded := encoded + (PrefixOf(e) + Zeros(4) + PayloadOf(e));
      var sum := crc(encoded[start..]);
      encoded := Patch(encoded, start + CHECKSUM_OFFSET, sum);
      EncodeAllSnoc(Encoder(crc), es[..i], e);
      assert es[..i + 1] == es[..i] + [e];
      i := i + 1;
    }
    assert es[..|es|] == es;
    DecodeEncodedStream(crc, es);
  }

  /** Walks the stream with a cursor.  It accepts exactly the streams that are encodings, and
      returns what they encode. */
  method DecodeEntries(crc: Checksum, bytes: seq<byte>) returns (r: Result<seq<Entry>>)
    ensures r == DecodeStream(crc, bytes)
    ensures r.Ok? ==> EncodeStream(crc, r.value) == bytes
  {
    hide DecodeRecord, DecodeAll;
    ghost var dec := Decoder(crc);
    var entries: seq<Entry> := [];
    var cursor := 0;
    assert bytes[0..] == bytes;
    PrependEmpty(DecodeAll(dec, bytes));
    while cursor < |bytes|
      invariant 0 <= cursor <= |bytes|
      invariant DecodeAll(dec, bytes) == Prepend(entries, DecodeAll(dec, bytes[cursor..]))
    {
      DecodeTurn(dec, bytes, cursor, entries);
      var decoded := DecodeRecord(crc, bytes[cursor..]);
      if decoded.Err? {
        return Err(decoded.kind);
      }
      var (e, n) := decoded.value;
      entries := entries + [e];
      cursor := cursor + n;
    }
    DecodeNothing(dec, bytes[cursor..]);
    assert entries + [] == entries;
    DecodedStreamIsCanonical(crc, bytes);
    return Ok(entries);
  }
}

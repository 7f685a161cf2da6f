/** The bounded journal image inside its reserved region (`journal_region.rs`). */
module JournalRegion {
  import opened Bytes
  import opened Blocks
  import opened Results
  import opened Seals
  import opened Format
  import opened Journal
  import opened JournalCodec

  const REGION_MAGIC: seq<byte> := [0x4a, 0x52, 0x47, 0x31]  // "JRG1"
  const REGION_VERSION: u16 := 1
  const REGION_HEADER: nat := 32
  const REGION_CHECKSUM: nat := 16
  const RESERVED_OFFSET: nat := 20

  // ------------------------------------------------------------------------ admissible entries

  predicate TargetsHome(sb: Superblock, es: seq<Entry>) {
    forall i :: 0 <= i < |es| && es[i].Write? ==> IsHome(sb, es[i].block)
  }

  /** Transactions in order, and every write aimed at a home location. */
  predicate Admissible(sb: Superblock, es: seq<Entry>) {
    WellFormed(es) && TargetsHome(sb, es)
  }

  method ValidateEntries(sb: Superblock, es: seq<Entry>) returns (ok: bool)
    ensures ok <==> Admissible(sb, es)
  {
    var active: Option<TxId> := None;
    var i := 0;
    while i < |es|
      invariant 0 <= i <= |es|
      invariant WellFormed(es[..i]) && ScanLog(es[..i]).value.active == active
      invariant TargetsHome(sb, es[..i])
    {
      hide ScanLog;
      var e := es[i];
      assert es[..i + 1] == es[..i] + [e];
      ScanSnoc(es[..i], e);
      match e {
        case Begin(t) =>
          if active.Some? {
            RejectedPrefix(es, i + 1);
            return false;
          }
          active := Some(t);
        case Write(t, b, _) =>
          if active != Some(t) {
            RejectedPrefix(es, i + 1);
            return false;
          }
          if !IsHome(sb, b) {
            return false;
          }
        case Commit(t) =>
          if active != Some(t) {
            RejectedPrefix(es, i + 1);
            return false;
          }
          active := None;
      }
      i := i + 1;
    }
    assert es[..|es|] == es;
    return true;
  }

  predicate AllHome(sb: Superblock, ws: seq<HomeWrite>) {
    forall i :: 0 <= i < |ws| ==> IsHome(sb, ws[i].block)
  }

  /** Replay can only reach home locations. */
  lemma {:induction false} CommittedAreHome(sb: Superblock, es: seq<Entry>)
    requires Admissible(sb, es)
    ensures AllHome(sb, ScanLog(es).value.committed)
    ensures AllHome(sb, ScanLog(es).value.pending)
  {
    if es != [] {
      CommittedAreHome(sb, es[..|es| - 1]);
    }
  }

  // ------------------------------------------------------------------------ the region image

  function RegionPrefix(payloadLen: u64): (s: seq<byte>)
    ensures |s| == REGION_CHECKSUM
  {
    REGION_MAGIC + Le16(REGION_VERSION) + [0, 0] + Le64(payloadLen)
  }

  function Used(crc: Checksum, es: seq<Entry>): nat {
    REGION_HEADER + |EncodeStream(crc, es)|
  }

  predicate Fits(crc: Checksum, capacity: nat, es: seq<Entry>) {
    Used(crc, es) <= capacity < U64_LIMIT
  }

  function RegionImage(crc: Checksum, capacity: nat, es: seq<Entry>): (s: seq<byte>)
    requires Fits(crc, capacity, es)
    ensures |s| == capacity
  {
    var payload := EncodeStream(crc, es);
    Seal(crc, RegionPrefix(|payload|), Zeros(12) + payload) + Zeros(capacity - Used(crc, es))
  }

  function LoadRegion(crc: Checksum, sb: Superblock, region: seq<byte>): (r: Result<seq<Entry>>)
    requires |region| >= REGION_HEADER
    ensures r.Ok? ==> Admissible(sb, r.value)
  {
    if AllZero(region) then Ok([])
    else if region[0..4] != REGION_MAGIC then Err(InvalidData)
    else if Read16(region, 4) != REGION_VERSION then Err(InvalidData)
    else if region[6] != 0 || region[7] != 0 then Err(InvalidData)
    else if !AllZero(region[RESERVED_OFFSET..REGION_HEADER]) then Err(InvalidData)
    else
      var used := REGION_HEADER + Read64(region, 8);
      if used > |region| then Err(InvalidData)
      else if !AllZero(region[used..]) then Err(InvalidData)
      else if !Intact(crc, region[..used], REGION_CHECKSUM) then Err(InvalidData)
      else
        var es :- DecodeStream(crc, region[REGION_HEADER..used]);
        if Admissible(sb, es) then Ok(es) else Err(InvalidData)
  }

  lemma RegionPrefixFields(len: u64, rest: seq<byte>)
    ensures var r := RegionPrefix(len) + rest;
            r[0..4] == REGION_MAGIC && Read16(r, 4) == REGION_VERSION && r[6] == 0 && r[7] == 0 && Read64(r, 8) == len
  {
    hide Le16, Le64;
    var r := RegionPrefix(len) + rest;
    assert r[4..6] == Le16(REGION_VERSION) && r[8..16] == Le64(len);
    ReadsBack16(r, 4, REGION_VERSION);
    ReadsBack64(r, 8, len);
  }

  lemma RegionPrefixFromFields(r: seq<byte>)
    requires |r| >= REGION_CHECKSUM
    requires r[0..4] == REGION_MAGIC && Read16(r, 4) == REGION_VERSION && r[6] == 0 && r[7] == 0
    ensures r[..REGION_CHECKSUM] == RegionPrefix(Read64(r, 8))
  {
    hide Le16, Le64, Read16, Read64;
    assert r[..REGION_CHECKSUM] == r[0..4] + r[4..6] + [r[6], r[7]] + r[8..16];
  }

  lemma RegionParts(crc: Checksum, capacity: nat, es: seq<Entry>)
    requires Fits(crc, capacity, es)
    ensures var r := RegionImage(crc, capacity, es);
            var payload := EncodeStream(crc, es);
            var used := Used(crc, es);
            && r == RegionPrefix(|payload|) + r[REGION_CHECKSUM..]
            && r[RESERVED_OFFSET..REGION_HEADER] == Zeros(12)
            && r[REGION_HEADER..used] == payload
            && r[used..] == Zeros(capacity - used)
            && Intact(crc, r[..used], REGION_CHECKSUM)
  {
    hide EncodeStream, RegionPrefix, Seal, Intact;
    var r := RegionImage(crc, capacity, es);
    var payload := EncodeStream(crc, es);
    var used := Used(crc, es);
    var sealed := Seal(crc, RegionPrefix(|payload|), Zeros(12) + payload);
    SealParts(crc, RegionPrefix(|payload|), Zeros(12) + payload);
    assert r[..used] == sealed;
    assert r[..REGION_CHECKSUM] == sealed[..REGION_CHECKSUM];
    assert r[RESERVED_OFFSET..used] == sealed[RESERVED_OFFSET..] == Zeros(12) + payload;
    assert r[RESERVED_OFFSET..REGION_HEADER] == r[RESERVED_OFFSET..used][..12];
    assert r[REGION_HEADER..used] == r[RESERVED_OFFSET..used][12..];
  }

  /** What is stored is what is loaded. */
  lemma LoadStored(crc: Checksum, sb: Superblock, capacity: nat, es: seq<Entry>)
    requires Fits(crc, capacity, es) && Admissible(sb, es)
    ensures LoadRegion(crc, sb, RegionImage(crc, capacity, es)) == Ok(es)
  {
    hide EncodeStream, DecodeStream, RegionPrefix, RegionImage, Intact, Read16, Read64;
    var r := RegionImage(crc, capacity, es);
    RegionParts(crc, capacity, es);
    RegionPrefixFields(|EncodeStream(crc, es)|, r[REGION_CHECKSUM..]);
    assert r[0] == r[0..4][0] == 0x4a;
    DecodeEncodedStream(crc, es);
  }

  /** A region that loads, other than a blank one, is byte for byte what a store of the loaded
      entries writes. */
  lemma LoadedIsCanonical(crc: Checksum, sb: Superblock, region: seq<byte>)
    requires REGION_HEADER <= |region| < U64_LIMIT
    requires LoadRegion(crc, sb, region).Ok? && !AllZero(region)
    ensures Fits(crc, |region|, LoadRegion(crc, sb, region).value)
    ensures region == RegionImage(crc, |region|, LoadRegion(crc, sb, region).value)
  {
    hide EncodeStream, DecodeStream, RegionPrefix, Seal, Intact, Read16, Read64;
    var es := LoadRegion(crc, sb, region).value;
    var used := REGION_HEADER + Read64(region, 8);
    var payload := region[REGION_HEADER..used];
    DecodedStreamIsCanonical(crc, payload);
    RegionPrefixFromFields(region);
    IntactIsSealed(crc, region[..used], REGION_CHECKSUM);
    assert region[..used][..REGION_CHECKSUM] == region[..REGION_CHECKSUM];
    AllZeroIsZeros(region[RESERVED_OFFSET..REGION_HEADER]);
    assert region[..used][RESERVED_OFFSET..] == region[RESERVED_OFFSET..REGION_HEADER] + payload;
    AllZeroIsZeros(region[used..]);
    assert region == region[..used] + region[used..];
  }
}

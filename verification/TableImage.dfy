/** Checksummed record tables: the region format shared by `inode_table.rs` and
    `directory_table.rs`, which differ in their magic, their records and the key that must be
    unique. */
module TableImage {
  import opened Bytes
  import opened Results
  import opened Seals
  import opened RecordStream

  const TABLE_VERSION: u32 := 1
  const TABLE_HEADER: nat := 32
  const TABLE_CHECKSUM: nat := 28

  datatype TableFormat<!T, !K> =
    TableFormat(magic: seq<byte>, enc: T -> seq<byte>, dec: Decoded<T>, valid: T -> bool, key: T -> K)

  ghost predicate Sound<T(!new), K>(f: TableFormat<T, K>) {
    |f.magic| == 8 && Inverts(f.enc, f.dec, f.valid) && Canonical(f.enc, f.dec, f.valid)
  }

  predicate Distinct<T, K(==)>(key: T -> K, xs: seq<T>) {
    forall i, j :: 0 <= i < j < |xs| ==> key(xs[i]) != key(xs[j])
  }

  predicate AllValid<T, K>(f: TableFormat<T, K>, xs: seq<T>) {
    forall i :: 0 <= i < |xs| ==> f.valid(xs[i])
  }

  function Used<T, K>(f: TableFormat<T, K>, xs: seq<T>): nat {
    TABLE_HEADER + |EncodeAll(f.enc, xs)|
  }

  /** A list the region can hold. */
  predicate Encodable<T, K(==)>(f: TableFormat<T, K>, capacity: nat, xs: seq<T>) {
    && Distinct(f.key, xs) && AllValid(f, xs)
    && Used(f, xs) <= capacity < U64_LIMIT && |xs| < 0x1_0000_0000
  }

  function TablePrefix(magic: seq<byte>, len: u64, count: u32): (s: seq<byte>)
    requires |magic| == 8
    ensures |s| == TABLE_CHECKSUM
  {
    magic + Le32(TABLE_VERSION) + Le32(0) + Le64(len) + Le32(count)
  }

  function Image<T, K(==)>(crc: Checksum, f: TableFormat<T, K>, capacity: nat, xs: seq<T>): (s: seq<byte>)
    requires |f.magic| == 8 && Encodable(f, capacity, xs)
    ensures |s| == capacity
  {
    var payload := EncodeAll(f.enc, xs);
    Seal(crc, TablePrefix(f.magic, |payload|, |xs|), payload) + Zeros(capacity - Used(f, xs))
  }

  function Parse<T, K(==)>(crc: Checksum, f: TableFormat<T, K>, image: seq<byte>): (r: Result<seq<T>>) {
    if |image| < TABLE_HEADER then Err(InvalidData)
    else if image[0..8] != f.magic then Err(InvalidData)
    else if Read32(image, 8) != TABLE_VERSION then Err(InvalidData)
    else if Read32(image, 12) != 0 then Err(InvalidData)
    else
      var used := TABLE_HEADER + Read64(image, 16);
      if used > |image| then Err(InvalidData)
      else if !AllZero(image[used..]) then Err(InvalidData)
      else if !Intact(crc, image[..used], TABLE_CHECKSUM) then Err(InvalidData)
      else
        var xs :- DecodeAll(f.dec, image[TABLE_HEADER..used]);
        if Distinct(f.key, xs) && |xs| == Read32(image, 24) then Ok(xs) else Err(InvalidData)
  }

  lemma PrefixFields(magic: seq<byte>, len: u64, count: u32, rest: seq<byte>)
    requires |magic| == 8
    ensures var r := TablePrefix(magic, len, count) + rest;
            && r[0..8] == magic && Read32(r, 8) == TABLE_VERSION && Read32(r, 12) == 0
            && Read64(r, 16) == len && Read32(r, 24) == count
  {
    hide Le32, Le64;
    var r := TablePrefix(magic, len, count) + rest;
    assert r[8..12] == Le32(TABLE_VERSION) && r[12..16] == Le32(0);
    assert r[16..24] == Le64(len) && r[24..28] == Le32(count);
    ReadsBack32(r, 8, TABLE_VERSION);
    ReadsBack32(r, 12, 0);
    ReadsBack64(r, 16, len);
    ReadsBack32(r, 24, count);
  }

  lemma PrefixFromFields(r: seq<byte>)
    requires |r| >= TABLE_CHECKSUM && Read32(r, 8) == TABLE_VERSION && Read32(r, 12) == 0
    ensures r[..TABLE_CHECKSUM] == TablePrefix(r[0..8], Read64(r, 16), Read32(r, 24))
  {
    hide Le32, Le64, Read32, Read64;
    assert r[..TABLE_CHECKSUM] == r[0..8] + r[8..12] + r[12..16] + r[16..24] + r[24..28];
  }

  /** A stored table loads as the list it was stored from. */
  lemma ParseImage<T(!new), K>(crc: Checksum, f: TableFormat<T, K>, capacity: nat, xs: seq<T>)
    requires Sound(f) && Encodable(f, capacity, xs)
    ensures Parse(crc, f, Image(crc, f, capacity, xs)) == Ok(xs)
  {
    hide EncodeAll, DecodeAll, TablePrefix, Seal, Intact, Read32, Read64;
    var image, payload, used := Image(crc, f, capacity, xs), EncodeAll(f.enc, xs), Used(f, xs);
    var prefix := TablePrefix(f.magic, |payload|, |xs|);
    SealParts(crc, prefix, payload);
    var sealed := Seal(crc, prefix, payload);
    assert image[..used] == sealed;
    assert image[..TABLE_CHECKSUM] == sealed[..TABLE_CHECKSUM];
    assert image == prefix + image[TABLE_CHECKSUM..];
    PrefixFields(f.magic, |payload|, |xs|, image[TABLE_CHECKSUM..]);
    assert image[TABLE_HEADER..used] == sealed[TABLE_HEADER..];
    assert image[used..] == Zeros(capacity - used);
    DecodeEncodeAll(f.enc, f.dec, f.valid, xs);
  }

  /** A region that loads is byte for byte what storing the loaded list writes. */
  lemma ParsedIsCanonical<T(!new), K>(crc: Checksum, f: TableFormat<T, K>, image: seq<byte>)
    requires Sound(f) && |image| < U64_LIMIT && Parse(crc, f, image).Ok?
    ensures Encodable(f, |image|, Parse(crc, f, image).value)
    ensures image == Image(crc, f, |image|, Parse(crc, f, image).value)
  {
    hide EncodeAll, DecodeAll, TablePrefix, Seal, Intact, Read32, Read64;
    var xs := Parse(crc, f, image).value;
    var used := TABLE_HEADER + Read64(image, 16);
    var payload := image[TABLE_HEADER..used];
    EncodeDecodeAll(f.enc, f.dec, f.valid, payload);
    assert AllValid(f, xs);
    PrefixFromFields(image);
    IntactIsSealed(crc, image[..used], TABLE_CHECKSUM);
    assert image[..used][..TABLE_CHECKSUM] == image[..TABLE_CHECKSUM];
    assert image[..used][TABLE_HEADER..] == payload;
    AllZeroIsZeros(image[used..]);
    assert image == image[..used] + image[used..];
  }

  // ------------------------------------------------------------------------ the loops

  /** `encode_image`: the records one after another, refusing a repeated key or a bad record. */
  method EncodeTable<T(!new), K(==, !new)>(crc: Checksum, f: TableFormat<T, K>, capacity: nat, xs: seq<T>)
    returns (r: Result<seq<byte>>)
    requires Sound(f) && capacity < U64_LIMIT
    ensures r.Ok? <==> Encodable(f, capacity, xs)
    ensures r.Ok? ==> r.value == Image(crc, f, capacity, xs) && Parse(crc, f, r.value) == Ok(xs)
  {
    hide Seal, TablePrefix, Parse;
    var seen: set<K> := {};
    var payload: seq<byte> := [];
    var i := 0;
    while i < |xs|
      invariant 0 <= i <= |xs|
      invariant payload == EncodeAll(f.enc, xs[..i])
      invariant Distinct(f.key, xs[..i]) && AllValid(f, xs[..i])
      invariant forall k :: k in seen <==> exists j :: 0 <= j < i && f.key(xs[j]) == k
    {
      if f.key(xs[i]) in seen || !f.valid(xs[i]) {
        return Err(InvalidInput);
      }
      seen := seen + {f.key(xs[i])};
      assert xs[..i + 1] == xs[..i] + [xs[i]];
      EncodeAllSnoc(f.enc, xs[..i], xs[i]);
      payload := payload + f.enc(xs[i]);
      i := i + 1;
    }
    assert xs[..i] == xs;
    if TABLE_HEADER + |payload| > capacity || |xs| >= 0x1_0000_0000 {
      return Err(InvalidInput);
    }
    ParseImage(crc, f, capacity, xs);
    var image := TablePrefix(f.magic, |payload|, |xs|) + Zeros(4) + payload;
    PatchSeals(crc, [], TablePrefix(f.magic, |payload|, |xs|), payload);
    assert [] + image == image;
    var sum := crc(image);
    return Ok(Patch(image, TABLE_CHECKSUM, sum) + Zeros(capacity - (TABLE_HEADER + |payload|)));
  }

  /** The record loop of `decode_image`. */
  method DecodeRecords<T(!new), K(==, !new)>(f: TableFormat<T, K>, payload: seq<byte>) returns (r: Result<seq<T>>)
    requires Sound(f)
    ensures r.Ok? <==> DecodeAll(f.dec, payload).Ok? && Distinct(f.key, DecodeAll(f.dec, payload).value)
    ensures r.Ok? ==> r == DecodeAll(f.dec, payload)
  {
    hide DecodeAll;
    var xs: seq<T> := [];
    var seen: set<K> := {};
    var offset := 0;
    assert payload[0..] == payload;
    PrependEmpty(DecodeAll(f.dec, payload));
    while offset < |payload|
      invariant 0 <= offset <= |payload|
      invariant DecodeAll(f.dec, payload) == Prepend(xs, DecodeAll(f.dec, payload[offset..]))
      invariant Distinct(f.key, xs)
      invariant forall k :: k in seen <==> exists j :: 0 <= j < |xs| && f.key(xs[j]) == k
    {
      assert CanonicalAt(f.enc, f.dec, f.valid, payload[offset..]);
      DecodeTurn(f.dec, payload, offset, xs);
      var decoded := f.dec(payload[offset..]);
      if decoded.Err? {
        return Err(decoded.kind);
      }
      var (x, n) := decoded.value;
      if f.key(x) in seen {
        RepeatedKey(f, payload, xs, x, offset + n);
        return Err(InvalidData);
      }
      seen := seen + {f.key(x)};
      ghost var before := xs;
      xs := xs + [x];
      assert xs[|before|] == x && forall j :: 0 <= j < |before| ==> xs[j] == before[j];
      assert forall j :: 0 <= j < |before| ==> f.key(xs[j]) == f.key(before[j]);
      offset := offset + n;
    }
    DecodeNothing(f.dec, payload[offset..]);
    assert xs + [] == xs;
    return Ok(xs);
  }

  lemma RepeatedKey<T, K>(f: TableFormat<T, K>, payload: seq<byte>, xs: seq<T>, x: T, offset: nat)
    requires offset <= |payload|
    requires DecodeAll(f.dec, payload) == Prepend(xs + [x], DecodeAll(f.dec, payload[offset..]))
    requires exists j :: 0 <= j < |xs| && f.key(xs[j]) == f.key(x)
    ensures DecodeAll(f.dec, payload).Ok? ==> !Distinct(f.key, DecodeAll(f.dec, payload).value)
  {
    if DecodeAll(f.dec, payload).Ok? {
      var all := DecodeAll(f.dec, payload).value;
      var j :| 0 <= j < |xs| && f.key(xs[j]) == f.key(x);
      assert all[j] == xs[j] && all[|xs|] == x;
    }
  }

  method DecodeTable<T(!new), K(==, !new)>(crc: Checksum, f: TableFormat<T, K>, image: seq<byte>)
    returns (r: Result<seq<T>>)
    requires Sound(f)
    ensures r.Ok? <==> Parse(crc, f, image).Ok?
    ensures r.Ok? ==> r == Parse(crc, f, image)
  {
    hide DecodeAll, Read32, Read64;
    if |image| < TABLE_HEADER || image[0..8] != f.magic || Read32(image, 8) != TABLE_VERSION || Read32(image, 12) != 0 {
      return Err(InvalidData);
    }
    var used := TABLE_HEADER + Read64(image, 16);
    if used > |image| || !AllZero(image[used..]) || !Intact(crc, image[..used], TABLE_CHECKSUM) {
      return Err(InvalidData);
    }
    r := DecodeRecords(f, image[TABLE_HEADER..used]);
    if r.Ok? && |r.value| != Read32(image, 24) {
      return Err(InvalidData);
    }
  }
}

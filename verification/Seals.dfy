/** Checksummed images.  Every format here keeps a 32-bit checksum at a fixed offset, computed over
    the image with that field zero. */
module Seals {
  import opened Bytes

  /** `prefix`, the checksum, `suffix`. */
  function Seal(crc: Checksum, prefix: seq<byte>, suffix: seq<byte>): (s: seq<byte>)
    ensures |s| == |prefix| + 4 + |suffix|
  {
    prefix + Le32(crc(prefix + Zeros(4) + suffix)) + suffix
  }

  function ClearSum(s: seq<byte>, at: nat): (c: seq<byte>)
    requires at + 4 <= |s|
    ensures |c| == |s|
  {
    s[..at] + Zeros(4) + s[at + 4..]
  }

  function Patch(s: seq<byte>, at: nat, sum: u32): (p: seq<byte>)
    requires at + 4 <= |s|
    ensures |p| == |s|
  {
    s[..at] + Le32(sum) + s[at + 4..]
  }

  predicate Intact(crc: Checksum, s: seq<byte>, at: nat)
    requires at + 4 <= |s|
  {
    crc(ClearSum(s, at)) == Read32(s, at)
  }

  lemma SealParts(crc: Checksum, prefix: seq<byte>, suffix: seq<byte>)
    ensures var s := Seal(crc, prefix, suffix);
            && s[..|prefix|] == prefix
            && s[|prefix| + 4..] == suffix
            && Intact(crc, s, |prefix|)
  {
    var s := Seal(crc, prefix, suffix);
    var sum := crc(prefix + Zeros(4) + suffix);
    assert s[|prefix|..|prefix| + 4] == Le32(sum);
    ReadsBack32(s, |prefix|, sum);
    assert s[..|prefix|] == prefix && s[|prefix| + 4..] == suffix;
  }

  /** Only a sealed image is intact. */
  lemma IntactIsSealed(crc: Checksum, s: seq<byte>, at: nat)
    requires at + 4 <= |s| && Intact(crc, s, at)
    ensures s == Seal(crc, s[..at], s[at + 4..])
  {
    assert s == s[..at] + s[at..at + 4] + s[at + 4..];
  }

  /** Writing the checksum into the zeroed field of an image at the end of a buffer seals it. */
  lemma PatchSeals(crc: Checksum, before: seq<byte>, prefix: seq<byte>, suffix: seq<byte>)
    ensures var bare := prefix + Zeros(4) + suffix;
            var all := before + bare;
            var at := |before| + |prefix|;
            && all[|before|..] == bare
            && Patch(all, at, crc(bare)) == before + Seal(crc, prefix, suffix)
  {
    var bare := prefix + Zeros(4) + suffix;
    var all := before + bare;
    var at := |before| + |prefix|;
    assert all[|before|..] == bare;
    assert all[..at] == before + prefix;
    assert all[at + 4..] == suffix;
  }
}

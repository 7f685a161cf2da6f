/** Bytes and the little-endian integers the on-disk formats are made of. */
module Bytes {
  type byte = x: int | 0 <= x < 256
  type u16 = x: int | 0 <= x < 0x1_0000
  type u32 = x: int | 0 <= x < 0x1_0000_0000
  type u64 = x: int | 0 <= x < 0x1_0000_0000_0000_0000

  const U64_LIMIT: nat := 0x1_0000_0000_0000_0000

  /** The formats protect their records with CRC-32.  Nothing proved here depends on which
      checksum it is, so every codec takes it as a parameter. */
  type Checksum = seq<byte> -> u32

  function Pow256(n: nat): (p: nat)
    ensures p > 0
  {
    if n == 0 then 1 else 256 * Pow256(n - 1)
  }

  /** The `n` low-order bytes of `x`, least significant first. */
  function ToLe(x: nat, n: nat): (s: seq<byte>)
    ensures |s| == n
  {
    if n == 0 then [] else [x % 256] + ToLe(x / 256, n - 1)
  }

  function FromLe(s: seq<byte>): (x: nat)
    ensures x < Pow256(|s|)
  {
    if s == [] then 0 else s[0] + 256 * FromLe(s[1..])
  }

  lemma {:induction false} FromToLe(x: nat, n: nat)
    requires x < Pow256(n)
    ensures FromLe(ToLe(x, n)) == x
  {
    if n > 0 {
      FromToLe(x / 256, n - 1);
      assert ToLe(x, n)[1..] == ToLe(x / 256, n - 1);
    }
  }

  lemma {:induction false} ToFromLe(s: seq<byte>)
    ensures ToLe(FromLe(s), |s|) == s
  {
    if s != [] {
      ToFromLe(s[1..]);
      var r := FromLe(s[1..]);
      assert (s[0] + 256 * r) % 256 == s[0] && (s[0] + 256 * r) / 256 == r;
      assert s == [s[0]] + s[1..];
    }
  }

  lemma Widths()
    ensures Pow256(2) == 0x1_0000
    ensures Pow256(4) == 0x1_0000_0000
    ensures Pow256(8) == U64_LIMIT
  {
    assert Pow256(1) == 256;
    assert Pow256(3) == 256 * Pow256(2);
    assert Pow256(5) == 256 * Pow256(4);
    assert Pow256(6) == 256 * Pow256(5);
    assert Pow256(7) == 256 * Pow256(6);
  }

  function Le16(x: u16): (s: seq<byte>)
    ensures |s| == 2 && FromLe(s) == x
  {
    Widths(); FromToLe(x, 2); ToLe(x, 2)
  }

  function Le32(x: u32): (s: seq<byte>)
    ensures |s| == 4 && FromLe(s) == x
  {
    Widths(); FromToLe(x, 4); ToLe(x, 4)
  }

  function Le64(x: u64): (s: seq<byte>)
    ensures |s| == 8 && FromLe(s) == x
  {
    Widths(); FromToLe(x, 8); ToLe(x, 8)
  }

  function Read16(s: seq<byte>, at: nat): (x: u16)
    requires at + 2 <= |s|
    ensures s[at..at + 2] == Le16(x)
  {
    Widths(); ToFromLe(s[at..at + 2]); FromLe(s[at..at + 2])
  }

  function Read32(s: seq<byte>, at: nat): (x: u32)
    requires at + 4 <= |s|
    ensures s[at..at + 4] == Le32(x)
  {
    Widths(); ToFromLe(s[at..at + 4]); FromLe(s[at..at + 4])
  }

  function Read64(s: seq<byte>, at: nat): (x: u64)
    requires at + 8 <= |s|
    ensures s[at..at + 8] == Le64(x)
  {
    Widths(); ToFromLe(s[at..at + 8]); FromLe(s[at..at + 8])
  }

  lemma ReadsBack16(s: seq<byte>, at: nat, x: u16)
    requires at + 2 <= |s| && s[at..at + 2] == Le16(x)
    ensures Read16(s, at) == x
  {
  }

  lemma ReadsBack32(s: seq<byte>, at: nat, x: u32)
    requires at + 4 <= |s| && s[at..at + 4] == Le32(x)
    ensures Read32(s, at) == x
  {
  }

  lemma ReadsBack64(s: seq<byte>, at: nat, x: u64)
    requires at + 8 <= |s| && s[at..at + 8] == Le64(x)
    ensures Read64(s, at) == x
  {
  }

  /** Consecutive 64-bit words. */
  function WordsLe(ws: seq<u64>): (s: seq<byte>)
    ensures |s| == 8 * |ws|
  {
    if ws == [] then [] else WordsLe(ws[..|ws| - 1]) + Le64(ws[|ws| - 1])
  }

  function ReadWords(s: seq<byte>, at: nat, n: nat): (ws: seq<u64>)
    requires at + 8 * n <= |s|
    ensures |ws| == n
  {
    seq(n, i requires 0 <= i < n => Read64(s, at + 8 * i))
  }

  lemma {:induction false} WordAt(ws: seq<u64>, i: nat)
    requires i < |ws|
    ensures WordsLe(ws)[8 * i..8 * i + 8] == Le64(ws[i])
  {
    if i < |ws| - 1 {
      WordAt(ws[..|ws| - 1], i);
    }
  }

  lemma SliceSlice(s: seq<byte>, a: nat, b: nat, i: nat, j: nat)
    requires a <= b <= |s| && i <= j <= b - a
    ensures s[a..b][i..j] == s[a + i..a + j]
  {
    var inner, outer := s[a..b][i..j], s[a + i..a + j];
    assert |inner| == |outer| == j - i;
    assert forall k :: 0 <= k < j - i ==> inner[k] == s[a..b][i + k] == s[a + (i + k)] == outer[k];
  }

  lemma ReadWordBack(s: seq<byte>, at: nat, ws: seq<u64>, i: nat)
    requires at + 8 * |ws| <= |s| && s[at..at + 8 * |ws|] == WordsLe(ws) && i < |ws|
    ensures Read64(s, at + 8 * i) == ws[i]
  {
    hide Le64, Read64, WordsLe;
    WordAt(ws, i);
    SliceSlice(s, at, at + 8 * |ws|, 8 * i, 8 * i + 8);
    ReadsBack64(s, at + 8 * i, ws[i]);
  }

  lemma ReadWordsBack(s: seq<byte>, at: nat, ws: seq<u64>)
    requires at + 8 * |ws| <= |s| && s[at..at + 8 * |ws|] == WordsLe(ws)
    ensures ReadWords(s, at, |ws|) == ws
  {
    hide Read64, WordsLe;
    forall i | 0 <= i < |ws| ensures ReadWords(s, at, |ws|)[i] == ws[i] {
      ReadWordBack(s, at, ws, i);
    }
  }

  lemma {:induction false} WordsOfBytes(s: seq<byte>, at: nat, n: nat)
    requires at + 8 * n <= |s|
    ensures WordsLe(ReadWords(s, at, n)) == s[at..at + 8 * n]
  {
    hide Le64, Read64;
    if n > 0 {
      WordsOfBytes(s, at, n - 1);
      assert ReadWords(s, at, n)[..n - 1] == ReadWords(s, at, n - 1);
      assert s[at..at + 8 * n] == s[at..at + 8 * (n - 1)] + s[at + 8 * (n - 1)..at + 8 * n];
    }
  }

  function Zeros(n: nat): (s: seq<byte>)
    ensures |s| == n && AllZero(s)
  {
    seq(n, _ => 0)
  }

  predicate AllZero(s: seq<byte>) {
    forall i :: 0 <= i < |s| ==> s[i] == 0
  }

  lemma AllZeroIsZeros(s: seq<byte>)
    requires AllZero(s)
    ensures s == Zeros(|s|)
  {
  }
}

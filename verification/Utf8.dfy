/** UTF-8, as section 3 of RFC 3629 defines it and as section 4 describes its syntax. */
module Utf8 {
  import opened Bytes

  predicate Tail(b: byte) {
    0x80 <= b <= 0xbf
  }

  /** The length of the first character by the syntax of section 4, or 0 if there is none. */
  function HeadLength(s: seq<byte>): (n: nat)
    requires s != []
    ensures n <= |s|
  {
    if s[0] <= 0x7f then 1
    else if 0xc2 <= s[0] <= 0xdf && |s| >= 2 && Tail(s[1]) then 2
    else if 0xe0 <= s[0] <= 0xef && |s| >= 3 && Tail(s[1]) && Tail(s[2])
        && (s[0] == 0xe0 ==> s[1] >= 0xa0) && (s[0] == 0xed ==> s[1] <= 0x9f) then 3
    else if 0xf0 <= s[0] <= 0xf4 && |s| >= 4 && Tail(s[1]) && Tail(s[2]) && Tail(s[3])
        && (s[0] == 0xf0 ==> s[1] >= 0x90) && (s[0] == 0xf4 ==> s[1] <= 0x8f) then 4
    else 0
  }

  predicate ValidUtf8(s: seq<byte>) {
    s == [] || (HeadLength(s) > 0 && ValidUtf8(s[HeadLength(s)..]))
  }

  // ------------------------------------------------------------------------ as an encoding

  /** A character: any code point but the surrogates. */
  predicate Scalar(c: nat) {
    c < 0xd800 || 0xe000 <= c < 0x11_0000
  }

  /** The octets of one character: the fewest that hold its bits, six to an octet after the first. */
  function Octets(c: nat): (s: seq<byte>)
    requires Scalar(c)
    ensures 1 <= |s| <= 4
  {
    if c < 0x80 then [c]
    else if c < 0x800 then [0xc0 + c / 64, 0x80 + c % 64]
    else if c < 0x1_0000 then [0xe0 + c / 64 / 64, 0x80 + c / 64 % 64, 0x80 + c % 64]
    else [0xf0 + c / 64 / 64 / 64, 0x80 + c / 64 / 64 % 64, 0x80 + c / 64 % 64, 0x80 + c % 64]
  }

  predicate Text(cs: seq<nat>) {
    forall i :: 0 <= i < |cs| ==> Scalar(cs[i])
  }

  function EncodeText(cs: seq<nat>): seq<byte>
    requires Text(cs)
  {
    if cs == [] then [] else Octets(cs[0]) + EncodeText(cs[1..])
  }

  /** Exactly the encodings of texts are valid. */
  lemma ValidIsEncoded(s: seq<byte>)
    ensures ValidUtf8(s) <==> exists cs :: Text(cs) && EncodeText(cs) == s
  {
    if ValidUtf8(s) {
      var cs := Decoded(s);
    }
    forall cs | Text(cs) ensures ValidUtf8(EncodeText(cs)) {
      EncodedIsValid(cs);
    }
  }

  lemma {:induction false} EncodedIsValid(cs: seq<nat>)
    requires Text(cs)
    ensures ValidUtf8(EncodeText(cs))
  {
    if cs != [] {
      hide Octets, HeadLength;
      var rest := EncodeText(cs[1..]);
      EncodedIsValid(cs[1..]);
      OctetsHead(cs[0], rest);
      assert (Octets(cs[0]) + rest)[|Octets(cs[0])|..] == rest;
    }
  }

  lemma OctetsHead(c: nat, rest: seq<byte>)
    requires Scalar(c)
    ensures HeadLength(Octets(c) + rest) == |Octets(c)|
  {
  }

  /** The characters of a valid string. */
  lemma {:induction false} Decoded(s: seq<byte>) returns (cs: seq<nat>)
    requires ValidUtf8(s)
    ensures Text(cs) && EncodeText(cs) == s
  {
    if s == [] {
      return [];
    }
    hide Octets, HeadLength, EncodeText;
    var n := HeadLength(s);
    var c := FirstCharacter(s);
    var rest := Decoded(s[n..]);
    cs := [c] + rest;
    OneMore(c, rest, s, n);
  }

  lemma OneMore(c: nat, rest: seq<nat>, s: seq<byte>, n: nat)
    requires Scalar(c) && Text(rest) && n <= |s| && Octets(c) == s[..n] && EncodeText(rest) == s[n..]
    ensures Text([c] + rest) && EncodeText([c] + rest) == s
  {
    hide Octets;
    assert ([c] + rest)[1..] == rest && s == s[..n] + s[n..];
  }

  lemma FirstCharacter(s: seq<byte>) returns (c: nat)
    requires s != [] && HeadLength(s) > 0
    ensures Scalar(c) && Octets(c) == s[..HeadLength(s)]
  {
    hide Octets;
    var b: int := s[0];
    if HeadLength(s) == 1 {
      c := b;
      OneOctet(c);
    } else if HeadLength(s) == 2 {
      c := (b - 0xc0) * 64 + (s[1] as int - 0x80);
      TwoOctets(s[0], s[1]);
    } else if HeadLength(s) == 3 {
      c := (b - 0xe0) * 4096 + (s[1] as int - 0x80) * 64 + (s[2] as int - 0x80);
      ThreeOctets(s[0], s[1], s[2]);
    } else {
      c := (b - 0xf0) * 262144 + (s[1] as int - 0x80) * 4096 + (s[2] as int - 0x80) * 64 + (s[3] as int - 0x80);
      FourOctets(s[0], s[1], s[2], s[3]);
    }
  }

  lemma OneOctet(c: nat)
    requires c <= 0x7f
    ensures Octets(c) == [c]
  {
  }

  lemma TwoOctets(b: int, x: int)
    requires 0xc2 <= b <= 0xdf && 0x80 <= x <= 0xbf
    ensures var c := (b - 0xc0) * 64 + (x - 0x80); Scalar(c) && Octets(c) == [b, x]
  {
    Digit(b - 0xc0, x - 0x80);
  }

  lemma ThreeOctets(b: int, x: int, y: int)
    requires 0xe0 <= b <= 0xef && 0x80 <= x <= 0xbf && 0x80 <= y <= 0xbf
    requires (b == 0xe0 ==> x >= 0xa0) && (b == 0xed ==> x <= 0x9f)
    ensures var c := (b - 0xe0) * 4096 + (x - 0x80) * 64 + (y - 0x80); Scalar(c) && Octets(c) == [b, x, y]
  {
    var h := (b - 0xe0) * 64 + (x - 0x80);
    Digit(b - 0xe0, x - 0x80);
    Digit(h, y - 0x80);
    assert h * 64 + (y - 0x80) == (b - 0xe0) * 4096 + (x - 0x80) * 64 + (y - 0x80);
  }

  lemma FourOctets(b: int, x: int, y: int, z: int)
    requires 0xf0 <= b <= 0xf4 && 0x80 <= x <= 0xbf && 0x80 <= y <= 0xbf && 0x80 <= z <= 0xbf
    requires (b == 0xf0 ==> x >= 0x90) && (b == 0xf4 ==> x <= 0x8f)
    ensures var c := (b - 0xf0) * 262144 + (x - 0x80) * 4096 + (y - 0x80) * 64 + (z - 0x80);
            Scalar(c) && Octets(c) == [b, x, y, z]
  {
    var g := (b - 0xf0) * 64 + (x - 0x80);
    var h := g * 64 + (y - 0x80);
    Digit(b - 0xf0, x - 0x80);
    Digit(g, y - 0x80);
    Digit(h, z - 0x80);
    assert h * 64 + (z - 0x80) == (b - 0xf0) * 262144 + (x - 0x80) * 4096 + (y - 0x80) * 64 + (z - 0x80);
  }

  lemma Digit(high: nat, low: nat)
    requires low < 64
    ensures (high * 64 + low) / 64 == high && (high * 64 + low) % 64 == low
  {
  }
}

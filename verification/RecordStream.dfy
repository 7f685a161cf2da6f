/** Streams of self-delimiting records, shared by the journal, inode and directory formats.
    `enc` renders one record; `dec` reads the record at the head of its argument and returns it
    with its length. */
module RecordStream {
  import opened Bytes
  import opened Results

  type Decoded<T> = seq<byte> -> Result<(T, nat)>

  function EncodeAll<T>(enc: T -> seq<byte>, xs: seq<T>): seq<byte> {
    if xs == [] then [] else enc(xs[0]) + EncodeAll(enc, xs[1..])
  }

  function DecodeAll<T>(dec: Decoded<T>, bytes: seq<byte>): (r: Result<seq<T>>)
    decreases |bytes|
  {
    if bytes == [] then Ok([])
    else
      var (x, n) :- dec(bytes);
      if n == 0 || n > |bytes| then Err(InvalidData)
      else Prepend([x], DecodeAll(dec, bytes[n..]))
  }

  function Prepend<T>(xs: seq<T>, r: Result<seq<T>>): Result<seq<T>> {
    if r.Ok? then Ok(xs + r.value) else r
  }

  lemma PrependEmpty<T>(r: Result<seq<T>>)
    ensures Prepend([], r) == r
  {
    if r.Ok? {
      assert [] + r.value == r.value;
    }
  }

  /** One turn of a cursor-driven decoding loop. */
  lemma DecodeTurn<T>(dec: Decoded<T>, bytes: seq<byte>, cursor: nat, xs: seq<T>)
    requires cursor < |bytes|
    requires dec(bytes[cursor..]).Ok? ==> 0 < dec(bytes[cursor..]).value.1 <= |bytes| - cursor
    ensures Prepend(xs, DecodeAll(dec, bytes[cursor..])) ==
            match dec(bytes[cursor..])
            case Err(k) => Err(k)
            case Ok((x, n)) => Prepend(xs + [x], DecodeAll(dec, bytes[cursor + n..]))
  {
    if dec(bytes[cursor..]).Ok? {
      var (x, n) := dec(bytes[cursor..]).value;
      assert bytes[cursor..][n..] == bytes[cursor + n..];
      var rest := DecodeAll(dec, bytes[cursor + n..]);
      if rest.Ok? {
        assert xs + ([x] + rest.value) == (xs + [x]) + rest.value;
      }
    }
  }

  lemma DecodeNothing<T>(dec: Decoded<T>, bytes: seq<byte>)
    requires |bytes| == 0
    ensures DecodeAll(dec, bytes) == Ok([])
  {
  }

  ghost predicate Inverts<T(!new)>(enc: T -> seq<byte>, dec: Decoded<T>, valid: T -> bool) {
    forall x, rest :: valid(x) ==> enc(x) != [] && dec(enc(x) + rest) == Ok((x, |enc(x)|))
  }

  ghost predicate CanonicalAt<T>(enc: T -> seq<byte>, dec: Decoded<T>, valid: T -> bool, bytes: seq<byte>) {
    dec(bytes).Ok? ==>
      var (x, n) := dec(bytes).value;
      0 < n <= |bytes| && bytes[..n] == enc(x) && valid(x)
  }

  ghost predicate Canonical<T>(enc: T -> seq<byte>, dec: Decoded<T>, valid: T -> bool) {
    forall bytes :: CanonicalAt(enc, dec, valid, bytes)
  }

  /** A stream of valid records reads back as itself. */
  lemma {:induction false} DecodeEncodeAll<T(!new)>(enc: T -> seq<byte>, dec: Decoded<T>, valid: T -> bool, xs: seq<T>)
    requires Inverts(enc, dec, valid)
    requires forall x :: x in xs ==> valid(x)
    ensures DecodeAll(dec, EncodeAll(enc, xs)) == Ok(xs)
  {
    if xs != [] {
      var rest := EncodeAll(enc, xs[1..]);
      DecodeEncodeAll(enc, dec, valid, xs[1..]);
      assert dec(enc(xs[0]) + rest) == Ok((xs[0], |enc(xs[0])|));
      assert (enc(xs[0]) + rest)[|enc(xs[0])|..] == rest;
      assert [xs[0]] + xs[1..] == xs;
    }
  }

  /** A stream that reads is the stream of what it reads as. */
  lemma {:induction false} EncodeDecodeAll<T(!new)>(enc: T -> seq<byte>, dec: Decoded<T>, valid: T -> bool,
                                             bytes: seq<byte>)
    requires Canonical(enc, dec, valid)
    requires DecodeAll(dec, bytes).Ok?
    ensures EncodeAll(enc, DecodeAll(dec, bytes).value) == bytes
    ensures forall x :: x in DecodeAll(dec, bytes).value ==> valid(x)
    decreases |bytes|
  {
    if bytes != [] {
      var (x, n) := dec(bytes).value;
      assert CanonicalAt(enc, dec, valid, bytes);
      EncodeDecodeAll(enc, dec, valid, bytes[n..]);
      var xs := DecodeAll(dec, bytes).value;
      assert xs[1..] == DecodeAll(dec, bytes[n..]).value;
      assert bytes == bytes[..n] + bytes[n..];
    }
  }

  lemma EncodeNothing<T>(enc: T -> seq<byte>)
    ensures EncodeAll(enc, []) == []
  {
  }

  lemma {:induction false} EncodeAllSnoc<T>(enc: T -> seq<byte>, xs: seq<T>, x: T)
    ensures EncodeAll(enc, xs + [x]) == EncodeAll(enc, xs) + enc(x)
  {
    if xs == [] {
      assert [x][1..] == [];
    } else {
      EncodeAllSnoc(enc, xs[1..], x);
      assert (xs + [x])[1..] == xs[1..] + [x];
    }
  }
}

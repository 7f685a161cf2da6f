/** Logical blocks and lists of block writes. */
module Blocks {
  import opened Bytes
  import opened Results

  const BLOCK_SIZE: nat := 4096

  type Block = b: seq<byte> | |b| == BLOCK_SIZE witness Zeros(BLOCK_SIZE)

  const ZERO_BLOCK: Block := Zeros(BLOCK_SIZE)

  /** One full-block write to its home location. */
  datatype HomeWrite = HomeWrite(block: u64, data: Block)

  predicate InRange(ws: seq<HomeWrite>, count: nat) {
    forall i :: 0 <= i < |ws| ==> ws[i].block < count
  }

  /** The blocks after issuing `ws` in order. */
  function Apply(home: seq<Block>, ws: seq<HomeWrite>): (r: seq<Block>)
    requires InRange(ws, |home|)
    ensures |r| == |home|
  {
    if ws == [] then home
    else
      var last := ws[|ws| - 1];
      Apply(home, ws[..|ws| - 1])[last.block := last.data]
  }

  /** What the last write to `block` stores, if there is one. */
  function LastWrite(ws: seq<HomeWrite>, block: nat): (r: Option<Block>)
    ensures r.Some? <==> Touches(ws, block)
    ensures r.Some? ==> exists i :: 0 <= i < |ws| && ws[i] == HomeWrite(block, r.value)
  {
    if ws == [] then None
    else if ws[|ws| - 1].block == block then
      assert ws[|ws| - 1] == HomeWrite(block, ws[|ws| - 1].data);
      Some(ws[|ws| - 1].data)
    else
      var r := LastWrite(ws[..|ws| - 1], block);
      assert Touches(ws, block) ==> Touches(ws[..|ws| - 1], block);
      r
  }

  predicate Touches(ws: seq<HomeWrite>, block: nat) {
    exists i :: 0 <= i < |ws| && ws[i].block == block
  }

  /** Applying writes leaves in each block what the last write to it stored. */
  lemma {:induction false} ApplyAt(home: seq<Block>, ws: seq<HomeWrite>, block: nat)
    requires InRange(ws, |home|) && block < |home|
    ensures Apply(home, ws)[block] ==
            if LastWrite(ws, block).Some? then LastWrite(ws, block).value else home[block]
  {
    if ws != [] {
      ApplyAt(home, ws[..|ws| - 1], block);
    }
  }

  lemma {:induction false} ApplyConcat(home: seq<Block>, a: seq<HomeWrite>, b: seq<HomeWrite>)
    requires InRange(a, |home|) && InRange(b, |home|)
    ensures InRange(a + b, |home|)
    ensures Apply(home, a + b) == Apply(Apply(home, a), b)
  {
    if b == [] {
      assert a + b == a;
    } else {
      ApplyConcat(home, a, b[..|b| - 1]);
      assert (a + b)[..|a + b| - 1] == a + b[..|b| - 1];
    }
  }

  // ------------------------------------------------------------------------ blocks as bytes

  function Flatten(bs: seq<Block>): (s: seq<byte>)
    ensures |s| == |bs| * BLOCK_SIZE
  {
    if bs == [] then [] else Flatten(bs[..|bs| - 1]) + bs[|bs| - 1]
  }

  /** The `i`-th block of a byte image. */
  function Chunk(image: seq<byte>, i: nat): (b: Block)
    requires (i + 1) * BLOCK_SIZE <= |image|
  {
    image[i * BLOCK_SIZE..(i + 1) * BLOCK_SIZE]
  }

  function Chunks(image: seq<byte>, n: nat): (bs: seq<Block>)
    requires n * BLOCK_SIZE <= |image|
    ensures |bs| == n
  {
    seq(n, i requires 0 <= i < n => Chunk(image, i))
  }

  lemma {:induction false} FlattenChunks(image: seq<byte>, n: nat)
    requires n * BLOCK_SIZE <= |image|
    ensures Flatten(Chunks(image, n)) == image[..n * BLOCK_SIZE]
  {
    if n > 0 {
      FlattenChunks(image, n - 1);
      assert Chunks(image, n)[..n - 1] == Chunks(image, n - 1);
      assert image[..n * BLOCK_SIZE] == image[..(n - 1) * BLOCK_SIZE] + Chunk(image, n - 1);
    }
  }

  lemma {:induction false} FlattenAt(bs: seq<Block>, i: nat)
    requires i < |bs|
    ensures Chunk(Flatten(bs), i) == bs[i]
  {
    if i < |bs| - 1 {
      FlattenAt(bs[..|bs| - 1], i);
      assert Chunk(Flatten(bs), i) == Chunk(Flatten(bs[..|bs| - 1]), i);
    }
  }
}

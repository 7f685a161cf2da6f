/** FAT16 cluster chains (`fat16.c`), after the FAT Data Structure section of Microsoft's FAT
    specification, version 1.03. */
module Fat16 {
  import opened Bytes
  import opened Sequences

  const RESERVED: nat := 0xFFF0
  const EOC: nat := 0xFFF8
  const MARK: u16 := 0xFFFF

  /** One table entry per cluster below the volume's limit. */
  type Fat = seq<u16>

  predicate ClusterValid(fat: Fat, c: nat) {
    2 <= c < |fat| && c < RESERVED
  }

  /** The clusters from `first` to an end mark, all of them usable. */
  predicate Chain(fat: Fat, first: nat, chain: seq<nat>) {
    && chain != [] && chain[0] == first
    && (forall i :: 0 <= i < |chain| ==> ClusterValid(fat, chain[i]))
    && (forall i :: 0 <= i < |chain| - 1 ==> fat[chain[i]] == chain[i + 1])
    && fat[chain[|chain| - 1]] >= EOC
  }

  ghost predicate WellFormed(fat: Fat, first: nat) {
    first == 0 || exists chain :: Chain(fat, first, chain)
  }

  // ------------------------------------------------------------------------ chains

  lemma EndIsLast(fat: Fat, first: nat, chain: seq<nat>, i: nat)
    requires Chain(fat, first, chain) && i < |chain|
    ensures fat[chain[i]] >= EOC <==> i == |chain| - 1
  {
    if i < |chain| - 1 {
      assert fat[chain[i]] == chain[i + 1] && ClusterValid(fat, chain[i + 1]);
    }
  }

  /** From equal clusters a chain goes on equally. */
  lemma {:induction false} SameOnwards(fat: Fat, first: nat, chain: seq<nat>, i: nat, j: nat, k: nat)
    requires Chain(fat, first, chain) && i < j && j + k < |chain| && chain[i] == chain[j]
    ensures chain[i + k] == chain[j + k]
    decreases k
  {
    if k > 0 {
      SameOnwards(fat, first, chain, i, j, k - 1);
      assert fat[chain[i + k - 1]] == chain[i + k] && fat[chain[j + k - 1]] == chain[j + k];
    }
  }

  /** A chain that ends visits no cluster twice. */
  lemma ChainIsDistinct(fat: Fat, first: nat, chain: seq<nat>)
    requires Chain(fat, first, chain)
    ensures NoRepeats(chain)
  {
    forall i, j | 0 <= i < j < |chain| ensures chain[i] != chain[j] {
      var k := |chain| - 1 - j;
      EndIsLast(fat, first, chain, i + k);
      if chain[i] == chain[j] {
        SameOnwards(fat, first, chain, i, j, k);
      }
    }
  }

  /** The chain from a cluster is determined. */
  lemma {:induction false} ChainIsUnique(fat: Fat, first: nat, a: seq<nat>, b: seq<nat>)
    requires Chain(fat, first, a) && Chain(fat, first, b)
    ensures a == b
    decreases |a|
  {
    EndIsLast(fat, first, a, 0);
    EndIsLast(fat, first, b, 0);
    if |a| > 1 {
      assert fat[a[0]] == a[1] && fat[b[0]] == b[1];
      ChainTail(fat, first, a);
      ChainTail(fat, first, b);
      ChainIsUnique(fat, a[1], a[1..], b[1..]);
      assert a == [a[0]] + a[1..] && b == [b[0]] + b[1..];
    }
  }

  lemma ChainTail(fat: Fat, first: nat, chain: seq<nat>)
    requires Chain(fat, first, chain) && |chain| > 1
    ensures Chain(fat, chain[1], chain[1..])
  {
  }

  /** The walk of a chain: a prefix of it, with no end met yet. */
  predicate Walk(fat: Fat, first: nat, path: seq<nat>, next: nat) {
    && (forall i :: 0 <= i < |path| ==> ClusterValid(fat, path[i]) && fat[path[i]] < EOC)
    && (forall i :: 0 <= i < |path| - 1 ==> fat[path[i]] == path[i + 1])
    && (path != [] ==> fat[path[|path| - 1]] == next)
    && (if path == [] then next == first else path[0] == first)
  }

  /** A walk and a chain from the same cluster agree. */
  lemma {:induction false} WalkOnChain(fat: Fat, first: nat, path: seq<nat>, next: nat, chain: seq<nat>, i: nat)
    requires Walk(fat, first, path, next) && Chain(fat, first, chain) && i <= |path|
    ensures i < |chain| && chain[i] == if i < |path| then path[i] else next
    decreases i
  {
    if i > 0 {
      WalkOnChain(fat, first, path, next, chain, i - 1);
      assert chain[i - 1] == path[i - 1];
      assert i - 1 < |chain| - 1;
      assert fat[chain[i - 1]] == chain[i];
    }
  }

  /** `fat16_chain_valid`: accepts zero and the starts of well-formed chains, nothing else.  The
      bound on the steps costs no chain its acceptance. */
  method ChainValid(fat: Fat, first: nat) returns (ok: bool)
    ensures ok <==> WellFormed(fat, first)
  {
    var end := if |fat| < RESERVED then |fat| else RESERVED;
    var limit := if end > 2 then end - 2 else 0;
    if first == 0 {
      return true;
    }
    var cluster: nat := first;
    ghost var path: seq<nat> := [];
    var steps := 0;
    while steps < limit
      invariant 0 <= steps <= limit && |path| == steps && Walk(fat, first, path, cluster)
    {
      if !ClusterValid(fat, cluster) {
        NotOnChain(fat, first, path, cluster);
        return false;
      }
      var next := fat[cluster];
      if next >= EOC {
        WalkEnds(fat, first, path, cluster);
        return true;
      }
      WalkOn(fat, first, path, cluster);
      path := path + [cluster];
      cluster := next;
      steps := steps + 1;
    }
    TooLong(fat, first, path, cluster, limit);
    return false;
  }

  lemma WalkEnds(fat: Fat, first: nat, path: seq<nat>, next: nat)
    requires Walk(fat, first, path, next) && ClusterValid(fat, next) && fat[next] >= EOC
    ensures Chain(fat, first, path + [next])
  {
  }

  lemma WalkOn(fat: Fat, first: nat, path: seq<nat>, next: nat)
    requires Walk(fat, first, path, next) && ClusterValid(fat, next) && fat[next] < EOC
    ensures Walk(fat, first, path + [next], fat[next])
  {
  }

  lemma NotOnChain(fat: Fat, first: nat, path: seq<nat>, next: nat)
    requires Walk(fat, first, path, next) && !ClusterValid(fat, next) && first != 0
    ensures !WellFormed(fat, first)
  {
    if chain :| Chain(fat, first, chain) {
      WalkOnChain(fat, first, path, next, chain, |path|);
    }
  }

  lemma TooLong(fat: Fat, first: nat, path: seq<nat>, next: nat, limit: nat)
    requires Walk(fat, first, path, next) && |path| == limit && first != 0
    requires limit == var end := if |fat| < RESERVED then |fat| else RESERVED; if end > 2 then end - 2 else 0
    ensures !WellFormed(fat, first)
  {
    if chain :| Chain(fat, first, chain) {
      WalkOnChain(fat, first, path, next, chain, |path|);
      ChainIsDistinct(fat, first, chain);
      var end := if |fat| < RESERVED then |fat| else RESERVED;
      assert ClusterValid(fat, chain[0]);
      AtMost(chain, 2, end);
    }
  }

  // ------------------------------------------------------------------------ unlinking

  /** The table with exactly these clusters free. */
  function Cleared(fat: Fat, chain: seq<nat>): (r: Fat)
    ensures |r| == |fat|
  {
    seq(|fat|, c requires 0 <= c < |fat| => if c in chain then 0 else fat[c])
  }

  /** The chain-freeing loop of `fat16_vfs_unlink`, behind its validation. */
  method UnlinkChain(fat: Fat, first: nat) returns (ok: bool, r: Fat)
    ensures ok <==> WellFormed(fat, first)
    ensures !ok ==> r == fat
    ensures ok && first == 0 ==> r == fat
    ensures ok && first != 0 ==> exists chain :: Chain(fat, first, chain) && r == Cleared(fat, chain)
  {
    r := fat;
    ok := ChainValid(fat, first);
    if !ok || first == 0 {
      return;
    }
    ghost var chain :| Chain(fat, first, chain);
    ChainIsDistinct(fat, first, chain);
    var cluster := first;
    ghost var i := 0;
    assert Cleared(fat, chain[..0]) == fat;
    while ClusterValid(r, cluster)
      invariant 0 <= i < |chain| && cluster == chain[i] && r == Cleared(fat, chain[..i])
      decreases |chain| - i
    {
      assert chain[i] !in chain[..i];
      var next := r[cluster];
      r := r[cluster := 0];
      assert r == Cleared(fat, chain[..i + 1]);
      if next >= EOC {
        EndIsLast(fat, first, chain, i);
        break;
      }
      assert i + 1 < |chain|;
      cluster := next;
      i := i + 1;
    }
    assert chain[..|chain|] == chain;
  }

  // ------------------------------------------------------------------------ growing a chain

  predicate IsFree(fat: Fat, c: nat) {
    2 <= c < |fat| && fat[c] == 0
  }

  /** A free cluster put behind the end of a chain. */
  lemma Appended(fat: Fat, first: nat, chain: seq<nat>, c: u16)
    requires Chain(fat, first, chain) && IsFree(fat, c) && c < RESERVED
    ensures c !in chain && Chain(fat[c := MARK][chain[|chain| - 1] := c], first, chain + [c])
  {
    var fat', n := fat[c := MARK][chain[|chain| - 1] := c], |chain|;
    var longer := chain + [c];
    ChainIsDistinct(fat, first, chain);
    forall i | 0 <= i < n ensures chain[i] != c {
      EndIsLast(fat, first, chain, i);
      assert ClusterValid(fat, chain[i]) && (i < n - 1 ==> ClusterValid(fat, chain[i + 1]));
    }
    forall i | 0 <= i < n ensures fat'[longer[i]] == longer[i + 1] {
      if i < n - 1 {
        assert chain[i] != chain[n - 1] && fat[chain[i]] == chain[i + 1];
      }
    }
    assert forall i :: 0 <= i < |longer| ==> ClusterValid(fat', longer[i]);
  }

  /** What extending a chain by `extra` has done to the table. */
  predicate Grew(before: Fat, after: Fat, chain: seq<nat>, extra: seq<nat>) {
    && |after| == |before|
    && (forall c :: 0 <= c < |before| && c !in extra && (chain == [] || extra == [] || c != chain[|chain| - 1]) ==>
        after[c] == before[c])
    && (forall c :: c in extra ==> IsFree(before, c))
  }

  /** Rolled back: the extension is free again and the old chain ends where it did. */
  function RolledBack(before: Fat, chain: seq<nat>, extra: seq<nat>): Fat
    requires chain != [] ==> chain[|chain| - 1] < |before|
  {
    if extra == [] || chain == [] then before else before[chain[|chain| - 1] := MARK]
  }

  lemma RollBackUndoes(before: Fat, after: Fat, chain: seq<nat>, extra: seq<nat>)
    requires Grew(before, after, chain, extra)
    requires (chain != [] ==> chain[|chain| - 1] < |before| && chain[|chain| - 1] !in extra)
    ensures var detached := if extra == [] || chain == [] then after else after[chain[|chain| - 1] := MARK];
            Cleared(detached, extra) == RolledBack(before, chain, extra)
  {
    var detached := if extra == [] || chain == [] then after else after[chain[|chain| - 1] := MARK];
    var a, b := Cleared(detached, extra), RolledBack(before, chain, extra);
    forall c | 0 <= c < |before| ensures a[c] == b[c] {
      assert c in extra ==> IsFree(before, c);
    }
  }

  /** Writing another end mark over an end mark changes no chain and frees no cluster. */
  lemma SameChains(fat: Fat, last: nat)
    requires last < |fat| && fat[last] >= EOC
    ensures forall first, chain :: Chain(fat[last := MARK], first, chain) <==> Chain(fat, first, chain)
    ensures forall c :: IsFree(fat[last := MARK], c) <==> IsFree(fat, c)
  {
    var fat' := fat[last := MARK];
    forall first, chain ensures Chain(fat', first, chain) <==> Chain(fat, first, chain) {
      SameChain(fat, fat', last, first, chain);
      SameChain(fat', fat, last, first, chain);
    }
  }

  lemma SameChain(fat: Fat, fat': Fat, last: nat, first: nat, chain: seq<nat>)
    requires last < |fat| == |fat'| && fat[last] >= EOC && fat'[last] >= EOC
    requires forall c :: 0 <= c < |fat| && c != last ==> fat'[c] == fat[c]
    ensures Chain(fat, first, chain) ==> Chain(fat', first, chain)
  {
    if Chain(fat, first, chain) {
      forall i | 0 <= i < |chain| - 1 ensures fat'[chain[i]] == chain[i + 1] {
        EndIsLast(fat, first, chain, i);
      }
      assert forall i :: 0 <= i < |chain| ==> ClusterValid(fat', chain[i]);
    }
  }

  // ------------------------------------------------------------------------ writing

  /** A row of a file that starts at byte `start`, with the part inside the written range replaced. */
  function PatchedRow(row: seq<byte>, start: nat, offset: nat, buffer: seq<byte>): (r: seq<byte>)
    ensures |r| == |row|
  {
    seq(|row|, x requires 0 <= x < |row| => if offset <= start + x < offset + |buffer| then buffer[start + x - offset]
        else row[x])
  }

  lemma PatchedSlices(row: seq<byte>, start: nat, offset: nat, buffer: seq<byte>, lo: nat, hi: nat)
    requires start <= lo <= hi <= start + |row| && offset <= lo && hi <= offset + |buffer|
    requires lo == start || lo == offset
    requires hi == start + |row| || hi == offset + |buffer|
    ensures row[..lo - start] + buffer[lo - offset..hi - offset] + row[hi - start..] ==
              PatchedRow(row, start, offset, buffer)
  {
    var r, want :=
        row[..lo - start] + buffer[lo - offset..hi - offset] + row[hi - start..],
        PatchedRow(row, start, offset, buffer);
    forall x | 0 <= x < |row| ensures r[x] == want[x] {
      assert x < lo - start ==> r[x] == row[x];
      assert lo - start <= x < hi - start ==> r[x] == buffer[start + x - offset];
      assert hi - start <= x ==> r[x] == row[x];
    }
    assert r == want;
  }

  /** The `memcpy` into one cluster. */
  method CopyRow(row: seq<byte>, start: nat, offset: nat, buffer: seq<byte>) returns (copy: seq<byte>, n: nat)
    ensures copy == PatchedRow(row, start, offset, buffer)
    ensures Stored(offset, |buffer|, start + |row|) == Stored(offset, |buffer|, start) + n
  {
    var end := offset + |buffer|;
    if start + |row| > offset && start < end {
      var lo, hi := if offset > start then offset else start, if end < start + |row| then end else start + |row|;
      PatchedSlices(row, start, offset, buffer, lo, hi);
      return row[..lo - start] + buffer[lo - offset..hi - offset] + row[hi - start..], hi - lo;
    }
    assert PatchedRow(row, start, offset, buffer) == row;
    return row, 0;
  }

  /** How much of a write fits in the first `limit` bytes of a file. */
  function Stored(offset: nat, size: nat, limit: nat): (n: nat)
    ensures n <= size
  {
    if limit <= offset then 0 else if offset + size <= limit then size else limit - offset
  }

  lemma StoredGrows(bpc: nat, offset: nat, size: nat, k: nat, n: nat)
    requires k <= n
    ensures k * bpc <= n * bpc
    ensures Stored(offset, size, k * bpc) <= Stored(offset, size, n * bpc)
  {
    assert n * bpc == k * bpc + (n - k) * bpc;
  }

  function Needed(bpc: nat, end: nat): (n: nat)
    requires bpc > 0
  {
    end / bpc + if end % bpc != 0 then 1 else 0
  }

  lemma NeededIsEnough(bpc: nat, end: nat)
    requires bpc > 0
    ensures end <= Needed(bpc, end) * bpc
  {
    assert end == end / bpc * bpc + end % bpc;
    assert (end / bpc + 1) * bpc == end / bpc * bpc + bpc;
  }

  /** A number of clusters holds the first `end` bytes exactly when it is at least `Needed`. */
  lemma NeededIsLeast(bpc: nat, end: nat, n: nat)
    requires bpc > 0
    ensures end <= n * bpc <==> n >= Needed(bpc, end)
  {
    NeededIsEnough(bpc, end);
    var q := end / bpc;
    assert end == q * bpc + end % bpc;
    if n >= Needed(bpc, end) {
      assert n * bpc == Needed(bpc, end) * bpc + (n - Needed(bpc, end)) * bpc;
    } else if n < q {
      assert q * bpc == n * bpc + (q - n) * bpc;
    }
  }

  // ------------------------------------------------------------------------ a file as bytes

  /** Byte `pos` of a file; past its last cluster there are none, which counts as zero. */
  function FileByte(data: seq<seq<byte>>, chain: seq<nat>, bpc: nat, pos: nat): byte
    requires bpc > 0
  {
    var k := pos / bpc;
    if k < |chain| && chain[k] < |data| && |data[chain[k]]| == bpc then data[chain[k]][pos % bpc] else 0
  }

  /** The bytes a read can return: those recorded in the entry and backed by the chain. */
  function Backed(size: nat, clusters: nat, bpc: nat): nat {
    if size < clusters * bpc then size else clusters * bpc
  }

  lemma RowsGrow(bpc: nat, k: nat, n: nat)
    ensures k <= n ==> k * bpc <= n * bpc
    ensures k < n ==> k * bpc + bpc <= n * bpc
  {
    if k < n {
      StoredGrows(bpc, 0, 0, k + 1, n);
      assert (k + 1) * bpc == k * bpc + bpc;
    }
  }

  lemma NextRow(bpc: nat, k: nat)
    ensures (k + 1) * bpc == k * bpc + bpc
  {
  }

  /** A position lies in one row, at one place. */
  lemma OneRow(bpc: nat, k: nat, x: nat, l: nat, y: nat)
    requires x < bpc && y < bpc && k * bpc + x == l * bpc + y
    ensures k == l && x == y
  {
    RowsGrow(bpc, k, l);
    RowsGrow(bpc, l, k);
  }

  lemma RowAt(bpc: nat, k: nat, x: nat)
    requires x < bpc
    ensures (k * bpc + x) / bpc == k && (k * bpc + x) % bpc == x
  {
    var pos := k * bpc + x;
    Division(pos, bpc);
    OneRow(bpc, k, x, pos / bpc, pos % bpc);
  }

  lemma Division(pos: nat, bpc: nat)
    requires bpc > 0
    ensures pos == pos / bpc * bpc + pos % bpc
  {
  }

  lemma RowBytes(data: seq<seq<byte>>, chain: seq<nat>, bpc: nat, k: nat, pos: nat, n: nat, base: nat)
    requires k < |chain| && chain[k] < |data| && |data[chain[k]]| == bpc && pos + n <= bpc && bpc > 0
    requires base == k * bpc + pos
    ensures var part := data[chain[k]][pos..pos + n];
            forall x :: 0 <= x < n ==> part[x] == FileByte(data, chain, bpc, base + x)
  {
    hide FileByte;
    var part := data[chain[k]][pos..pos + n];
    forall x | 0 <= x < n ensures part[x] == FileByte(data, chain, bpc, base + x) {
      RowAt(bpc, k, pos + x);
      RowByte(data, chain, bpc, k, pos + x, base + x);
    }
  }

  lemma RowByte(data: seq<seq<byte>>, chain: seq<nat>, bpc: nat, k: nat, x: nat, pos: nat)
    requires k < |chain| && chain[k] < |data| && |data[chain[k]]| == bpc && x < bpc && pos / bpc == k && pos % bpc == x
    ensures FileByte(data, chain, bpc, pos) == data[chain[k]][x]
  {
  }

  /** After a write, byte by byte: the buffer where it was written, zeros elsewhere in clusters that are new, and
      otherwise what was there. */
  lemma WrittenBytes(before: seq<seq<byte>>, clean: seq<seq<byte>>, after: seq<seq<byte>>, chain: seq<nat>,
                     extra: seq<nat>, bpc: nat, offset: nat, buffer: seq<byte>, pos: nat)
    requires bpc > 0 && NoRepeats(chain + extra) && (forall c :: 0 <= c < |clean| ==> |clean[c]| == bpc)
    requires Zeroed(before, clean, extra) && CopiedTo(clean, after, chain + extra, bpc, offset, buffer, |chain + extra|)
    requires pos < |chain + extra| * bpc
    ensures FileByte(after, chain + extra, bpc, pos) ==
            if offset <= pos < offset + |buffer| then buffer[pos - offset]
            else if pos / bpc < |chain| then FileByte(before, chain, bpc, pos) else 0
  {
    hide FileByte, PatchedRow, Zeroed;
    var all, k, x := chain + extra, pos / bpc, pos % bpc;
    InChain(bpc, pos, |all|);
    Division(pos, bpc);
    var c := all[k];
    assert after[c] == PatchedRow(clean[c], k * bpc, offset, buffer);
    PatchedAt(clean[c], k * bpc, offset, buffer, x);
    RowByte(after, all, bpc, k, x, pos);
    ZeroedAt(before, clean, chain, extra, k);
    if k < |chain| {
      RowByte(before, chain, bpc, k, x, pos);
    }
  }

  lemma PatchedAt(row: seq<byte>, start: nat, offset: nat, buffer: seq<byte>, x: nat)
    requires x < |row|
    ensures PatchedRow(row, start, offset, buffer)[x] ==
            if offset <= start + x < offset + |buffer| then buffer[start + x - offset] else row[x]
  {
  }

  lemma ZeroedAt(before: seq<seq<byte>>, clean: seq<seq<byte>>, chain: seq<nat>, extra: seq<nat>, k: nat)
    requires Zeroed(before, clean, extra) && NoRepeats(chain + extra) && k < |chain + extra|
    requires (chain + extra)[k] < |clean|
    ensures |clean| == |before| && (k < |chain| ==> clean[chain[k]] == before[chain[k]])
    ensures k >= |chain| ==> AllZero(clean[extra[k - |chain|]])
  {
    var all := chain + extra;
    if k < |chain| {
      assert forall j :: 0 <= j < |extra| ==> extra[j] == all[|chain| + j];
      assert all[k] !in extra;
    }
  }

  lemma InChain(bpc: nat, pos: nat, n: nat)
    requires bpc > 0
    ensures pos / bpc < n <==> pos < n * bpc
  {
    Division(pos, bpc);
    RowsGrow(bpc, pos / bpc, n);
    RowsGrow(bpc, n, pos / bpc);
  }

  /** A file's directory entry, over the volume it lies in. */
  class OpenFile {
    const bpc: nat
    var fat: Fat
    var data: seq<seq<byte>>
    var first: nat
    var size: nat

    ghost predicate Valid()
      reads this
    {
      && bpc > 0 && |fat| <= RESERVED && |data| == |fat|
      && forall c :: 0 <= c < |data| ==> |data[c]| == bpc
    }

    constructor (bpc: nat, fat: Fat, data: seq<seq<byte>>, first: nat, size: nat)
      requires bpc > 0 && |fat| <= RESERVED && |data| == |fat| && forall c :: 0 <= c < |data| ==> |data[c]| == bpc
      ensures Valid() && this.bpc == bpc && this.fat == fat && this.data == data && this.first == first
      ensures this.size == size
    {
      this.bpc, this.fat, this.data, this.first, this.size := bpc, fat, data, first, size;
    }

    /** `fat16_alloc_cluster`: the lowest free cluster, marked and zeroed; 0 when there is none. */
    method AllocCluster() returns (c: u16)
      requires Valid()
      modifies this`fat, this`data
      ensures Valid()
      ensures c == 0 ==> fat == old(fat) && data == old(data) && forall i :: !IsFree(fat, i)
      ensures c != 0 ==> IsFree(old(fat), c) && (forall i :: IsFree(old(fat), i) ==> c <= i)
      ensures c != 0 ==> fat == old(fat)[c := MARK] && data == old(data)[c := Zeros(bpc)]
    {
      var i := 2;
      while i < |fat|
        invariant 2 <= i && forall j :: 2 <= j < i && j < |fat| ==> !IsFree(fat, j)
      {
        if fat[i] == 0 {
          fat := fat[i := MARK];
          data := data[i := Zeros(bpc)];
          return i;
        }
        i := i + 1;
      }
      return 0;
    }

    /** Gives an empty file its first cluster. */
    method StartChain() returns (ok: bool, ghost extra: seq<nat>)
      requires Valid() && first == 0
      modifies this`fat, this`data, this`first
      ensures Valid() && Grew(old(fat), fat, [], extra)
      ensures !ok ==> extra == [] && fat == old(fat) && data == old(data) && first == 0 && forall i :: !IsFree(fat, i)
      ensures ok ==> extra == [first] && Chain(fat, first, extra) && Zeroed(old(data), data, extra)
    {
      var c := AllocCluster();
      if c == 0 {
        return false, [];
      }
      first := c;
      return true, [first];
    }

    /** Extends the chain, cluster by cluster, until it spans `needed` clusters or the volume is full. */
    method ExtendChain(needed: nat, ghost chain: seq<nat>)
      returns (firstNew: nat, newParent: nat, newCount: nat, ghost extra: seq<nat>)
      requires Valid() && Chain(fat, first, chain) && needed >= 1
      modifies this`fat, this`data
      ensures Valid() && Grew(old(fat), fat, chain, extra) && Chain(fat, first, chain + extra)
      ensures Zeroed(old(data), data, extra) && newCount == |extra| && (forall c :: c in extra ==> c !in chain)
      ensures |chain + extra| >= needed || forall i :: !IsFree(fat, i)
      ensures extra != [] ==> |chain + extra| <= needed
      ensures extra == [] <==> |chain| >= needed || forall i :: !IsFree(old(fat), i)
      ensures firstNew == (if extra == [] then 0 else extra[0])
      ensures newParent == if extra == [] then 0 else chain[|chain| - 1]
    {
      hide Chain, Grew, Zeroed;
      firstNew, newParent, newCount, extra := 0, 0, 0, [];
      var cluster, count := first, 1;
      assert chain + [] == chain;
      GrewNothing(fat, chain, data);
      ChainBounds(fat, first, chain);
      while count < needed
        invariant Valid() && Chain(fat, first, chain + extra) && Grew(old(fat), fat, chain, extra)
        invariant Zeroed(old(data), data, extra)
        invariant 1 <= count <= |chain + extra| && cluster == (chain + extra)[count - 1]
        invariant (extra != [] ==> count == |chain + extra| <= needed)
        invariant (extra != [] ==> extra[0] != 0) && newCount == |extra|
        invariant firstNew == (if extra == [] then 0 else extra[0])
        invariant newParent == if extra == [] then 0 else chain[|chain| - 1]
        invariant forall c :: c in extra ==> c !in chain
        decreases needed - count
      {
        ghost var all := chain + extra;
        ChainStep(fat, first, all, count - 1);
        var next: nat := fat[cluster];
        if next < 2 || next >= EOC {
          ghost var fat0, data0 := fat, data;
          var c := AllocCluster();
          if c == 0 {
            break;
          }
          Appended(fat0, first, all, c);
          GrewMore(old(fat), fat0, first, chain, extra, c, old(data), data0, bpc);
          if firstNew == 0 {
            firstNew, newParent := c, cluster;
          }
          newCount := newCount + 1;
          fat := fat[cluster := c];
          extra := extra + [c as nat];
          assert all + [c] == chain + extra && count == |all|;
          next := c;
        }
        cluster := next;
        count := count + 1;
      }
      GrewByNothing(old(fat), fat, chain, extra);
      GrewFree(old(fat), fat, chain, extra);
    }

    /** Copies the bytes that fall into the chain, cluster by cluster. */
    method CopyBytes(ghost chain: seq<nat>, offset: nat, buffer: seq<byte>) returns (written: nat)
      requires Valid() && Chain(fat, first, chain) && buffer != []
      modifies this`data
      ensures Valid() && written == Stored(offset, |buffer|, |chain| * bpc)
      ensures CopiedTo(old(data), data, chain, bpc, offset, buffer, |chain|)
    {
      hide Chain, PatchedRow, Stored, Needed, CopiedTo;
      var end, needed := offset + |buffer|, Needed(bpc, offset + |buffer|);
      NeededIsEnough(bpc, end);
      ChainBounds(fat, first, chain);
      ChainIsDistinct(fat, first, chain);
      ghost var data0 := data;
      var cluster, k := first, 0;
      written := 0;
      StoredNothing(offset, |buffer|, bpc);
      CopiedNothing(data, chain, bpc, offset, buffer);
      while k < needed && written < |buffer|
        invariant Valid() && 0 <= k <= |chain| && written == Stored(offset, |buffer|, k * bpc)
        invariant k < needed ==> cluster == (if k < |chain| then chain[k] else fat[chain[|chain| - 1]])
        invariant CopiedTo(data0, data, chain, bpc, offset, buffer, k)
        decreases needed - k
      {
        ChainStep(fat, first, chain, |chain| - 1);
        if cluster < 2 || cluster >= EOC {
          break;
        }
        ChainStep(fat, first, chain, k);
        assert (k + 1) * bpc == k * bpc + bpc;
        ghost var before := data;
        var row, n := CopyRow(data[cluster], k * bpc, offset, buffer);
        data, written := data[cluster := row], written + n;
        CopiedOne(data0, before, data, chain, bpc, offset, buffer, k);
        if k + 1 < needed {
          cluster := fat[cluster];
        }
        k := k + 1;
      }
      StoredAll(bpc, offset, |buffer|, k, needed, |chain|);
      CopiedRest(data0, data, chain, bpc, offset, buffer, k);
    }

    /** Detaches and frees exactly the clusters this write had allocated. */
    method RollBack(firstNew: nat, newParent: nat, newCount: nat, ghost fat0: Fat, ghost chain: seq<nat>,
                    ghost extra: seq<nat>)
      requires Valid() && Chain(fat, first, chain + extra) && Grew(fat0, fat, chain, extra) && extra != []
      requires firstNew == extra[0] && newCount == |extra| && newParent == if chain == [] then 0 else chain[|chain| - 1]
      modifies this`fat, this`first
      ensures Valid() && first == if chain == [] then 0 else old(first)
      ensures (chain != [] ==> chain[|chain| - 1] < |fat0|) && fat == RolledBack(fat0, chain, extra)
    {
      hide Chain, Grew, Strand;
      ExtraApart(fat, first, chain, extra);
      SameSize(fat0, fat, chain, extra);
      RollBackUndoes(fat0, fat, chain, extra);
      ExtraStrand(fat, first, chain, extra);
      if newParent != 0 {
        fat := fat[newParent := MARK];
      } else {
        first := 0;
      }
      fat := ClearStrand(fat, firstNew, newCount, extra);
    }

    /** `fat16_vfs_write`.  A write that stores nothing leaves every chain, the free clusters and the
        entry as they were; one that stores something has extended the chain, put its bytes there and
        recorded how far they reach. */
    method Write(offset: nat, buffer: seq<byte>, ghost chain: seq<nat>) returns (written: nat, ghost extra: seq<nat>)
      requires Valid() && (if first == 0 then chain == [] else Chain(fat, first, chain))
      modifies this
      ensures Valid() && (chain != [] ==> chain[|chain| - 1] < |old(fat)|)
      ensures written == 0 ==>
                first == old(first) && size == old(size) && fat == RolledBack(old(fat), chain, extra)
                && SameVolume(old(fat), fat)
      ensures written == 0 ==> forall c :: 0 <= c < |data| && !IsFree(old(fat), c) ==> data[c] == old(data)[c]
      ensures written == 0 <==> StoresNothing(old(fat), bpc, offset, |buffer|, |chain|)
      ensures written == 0 && fat != old(fat) <==> MarkChanges(old(fat), bpc, offset, |buffer|, chain)
      ensures written == if Accepted(old(fat), bpc, offset, |buffer|) then Stored(offset, |buffer|,
                |chain + extra| * bpc) else 0
      ensures Accepted(old(fat), bpc, offset, |buffer|) ==>
                Enough(old(fat), chain, extra, Needed(bpc, offset + |buffer|))
      ensures written > 0 ==> Chain(fat, first, chain + extra) && Grew(old(fat), fat, chain, extra)
      ensures written > 0 ==> size == if offset + written > old(size) then offset + written else old(size)
      ensures written > 0 ==>
                exists clean ::
                Zeroed(old(data), clean, extra)
                && CopiedTo(clean, data, chain + extra, bpc, offset, buffer, |chain + extra|)
    {
      hide Chain, Grew, Zeroed, CopiedTo, Stored, SameVolume, IsFree, StoresNothing, MarkChanges, Enough, Needed;
      RefusedOutcome(fat, bpc, offset, |buffer|, chain);
      extra := [];
      NothingRolledBack(fat, first, chain);
      if !Accepted(fat, bpc, offset, |buffer|) {
        return 0, [];
      }
      var needed := Needed(bpc, offset + |buffer|);
      SomeNeeded(bpc, offset + |buffer|);
      var firstNew, newParent, newCount;
      firstNew, newParent, newCount, extra := Grow(needed, chain);
      NowDistinct(fat, first, chain, extra);
      WriteOutcome(old(fat), fat, chain, extra, bpc, offset, |buffer|);
      if first == 0 {
        StoredNothing(offset, |buffer|, bpc);
        return 0, [];
      }
      ghost var clean := data;
      written := CopyBytes(chain + extra, offset, buffer);
      if written == 0 {
        NothingCopied(old(fat), fat, old(data), clean, data, chain, extra, bpc, offset, buffer);
        RolledBackSame(old(fat), old(first), chain, extra);
        ChainBounds(fat, first, chain + extra);
        GrewByNothing(old(fat), fat, chain, extra);
        if firstNew != 0 {
          RollBack(firstNew, newParent, newCount, old(fat), chain, extra);
        }
        return;
      }
      if offset + written > size {
        size := offset + written;
      }
    }

    /** Copies from byte `start` of one cluster on, to the end of the chain at most. */
    method CopyOut(from: nat, start: nat, total: nat, ghost chain: seq<nat>, ghost at: nat) returns (r: seq<byte>)
      requires Valid() && Chain(fat, first, chain) && at < |chain| && from == chain[at] && start < bpc
      ensures |r| <= total && at * bpc + start + |r| <= |chain| * bpc
      ensures |r| == total || at * bpc + start + |r| == |chain| * bpc
      ensures forall i :: 0 <= i < |r| ==> r[i] == FileByte(data, chain, bpc, at * bpc + start + i)
    {
      hide Chain, FileByte;
      var cluster: nat, pos: nat := from, start;
      ghost var k, row, offset, limit := at, at * bpc, at * bpc + start, |chain| * bpc;
      r := [];
      ChainBounds(fat, first, chain);
      RowsGrow(bpc, at, |chain|);
      while |r| < total && 2 <= cluster < EOC
        invariant 0 <= k <= |chain| && |r| <= total && pos < bpc && offset + |r| <= limit && row == k * bpc
        invariant |r| < total ==> cluster == (if k < |chain| then chain[k] else fat[chain[|chain| - 1]])
        invariant |r| < total ==> offset + |r| == row + pos
        invariant forall i :: 0 <= i < |r| ==> r[i] == FileByte(data, chain, bpc, offset + i)
        invariant k == |chain| ==> pos == 0
        decreases total - |r|
      {
        ChainStep(fat, first, chain, |chain| - 1);
        ChainStep(fat, first, chain, k);
        var chunk := total - |r|;
        if chunk > bpc - pos {
          chunk := bpc - pos;
        }
        RowBytes(data, chain, bpc, k, pos, chunk, offset + |r|);
        RowsGrow(bpc, k, |chain|);
        r := r + data[cluster][pos..pos + chunk];
        pos := 0;
        if |r| < total {
          cluster := fat[cluster];
        }
        NextRow(bpc, k);
        k, row := k + 1, row + bpc;
      }
    }

    /** `fat16_vfs_read`: the bytes from the offset on, as many as were asked for or as the file has. */
    method Read(offset: nat, want: nat, ghost chain: seq<nat>) returns (r: seq<byte>)
      requires Valid() && (if first == 0 then chain == [] && size == 0 else Chain(fat, first, chain))
      ensures var end := Backed(size, |chain|, bpc);
              |r| == if offset >= end then 0 else if want < end - offset then want else end - offset
      ensures forall i :: 0 <= i < |r| ==> r[i] == FileByte(data, chain, bpc, offset + i)
    {
      hide Chain, FileByte;
      if offset >= size {
        return [];
      }
      var total := if want > size - offset then size - offset else want;
      ChainBounds(fat, first, chain);
      InChain(bpc, offset, |chain|);
      var cluster, k := first, 0;
      while k < offset / bpc
        invariant 0 <= k <= offset / bpc && k < |chain| && cluster == chain[k]
      {
        ChainStep(fat, first, chain, k);
        cluster := fat[cluster];
        if cluster < 2 || cluster >= EOC {
          return [];
        }
        k := k + 1;
      }
      Division(offset, bpc);
      r := CopyOut(cluster, offset % bpc, total, chain, k);
    }

    /** First cluster and extension together. */
    method Grow(needed: nat, ghost chain: seq<nat>)
      returns (firstNew: nat, newParent: nat, newCount: nat, ghost extra: seq<nat>)
      requires Valid() && (if first == 0 then chain == [] else Chain(fat, first, chain)) && needed >= 1
      modifies this`fat, this`data, this`first
      ensures Valid() && Grew(old(fat), fat, chain, extra) && Zeroed(old(data), data, extra)
      ensures first == 0 ==> chain == [] && extra == [] && fat == old(fat) && data == old(data) && old(first) == 0
      ensures first != 0 ==> Chain(fat, first, chain + extra) && (chain != [] ==> first == old(first))
      ensures newCount == |extra| && firstNew == (if extra == [] then 0 else extra[0])
      ensures (extra != [] ==> extra[0] != 0)
      ensures newParent == if extra == [] || chain == [] then 0 else chain[|chain| - 1]
      ensures extra == [] <==> |chain| >= needed || forall i :: !IsFree(old(fat), i)
      ensures Enough(old(fat), chain, extra, needed)
    {
      hide Chain, Grew, Zeroed, IsFree;
      GrewNothing(fat, chain, data);
      if first == 0 {
        ghost var one;
        var ok;
        ok, one := StartChain();
        if !ok {
          return 0, 0, 0, [];
        }
        ghost var fat1, data1 := fat, data;
        ChainBounds(fat, first, one);
        var start := first;
        ghost var more;
        firstNew, newParent, newCount, more := ExtendChain(needed, one);
        GrewTwice(old(fat), fat1, fat, first, one, more, old(data), data1, data);
        extra := one + more;
        assert [] + extra == extra;
        AllTaken(old(fat), fat, first, chain, extra);
        return start, 0, newCount + 1, extra;
      }
      ChainBounds(fat, first, chain);
      firstNew, newParent, newCount, extra := ExtendChain(needed, chain);
      ExtraNonzero(fat, first, chain, extra);
      AllTaken(old(fat), fat, first, chain, extra);
    }
  }

  /** The extension makes the chain long enough, or takes every free cluster. */
  ghost predicate Enough(fat: Fat, chain: seq<nat>, extra: seq<nat>, needed: nat) {
    |chain + extra| >= needed || forall c :: IsFree(fat, c) ==> c in extra
  }

  lemma AllTaken(before: Fat, after: Fat, first: nat, chain: seq<nat>, extra: seq<nat>)
    requires Grew(before, after, chain, extra) && (chain == [] || Chain(before, first, chain))
    ensures (forall c :: !IsFree(after, c)) ==> forall c :: IsFree(before, c) ==> c in extra
  {
    hide Chain;
    if chain != [] {
      ChainStep(before, first, chain, |chain| - 1);
    }
    forall c | IsFree(before, c) && c !in extra ensures IsFree(after, c) {
    }
  }

  /** Arguments a write looks at further. */
  predicate Accepted(fat: Fat, bpc: nat, offset: nat, size: nat)
    requires bpc > 0
  {
    size > 0 && |fat| > 2 && offset / bpc < |fat| - 2 && size <= 0xFFFF_FFFF - offset
  }

  /** A write is looked at exactly when it has bytes, starts inside the largest file the volume could hold and
      ends within 32 bits. */
  lemma AcceptedIs(fat: Fat, bpc: nat, offset: nat, size: nat)
    requires bpc > 0
    ensures Accepted(fat, bpc, offset, size) <==>
            size > 0 && offset < (|fat| - 2) * bpc && offset + size <= 0xFFFF_FFFF
  {
    if |fat| > 2 {
      InChain(bpc, offset, |fat| - 2);
    } else {
      assert (|fat| - 2) * bpc <= 0;
    }
  }

  /** The free clusters of a volume. */
  ghost function FreeSet(fat: Fat): set<nat> {
    set c: nat | c < |fat| && IsFree(fat, c)
  }

  /** A write stores nothing exactly when its arguments are refused, or when the chain and all free
      clusters together end before the offset. */
  ghost predicate StoresNothing(fat: Fat, bpc: nat, offset: nat, size: nat, length: nat)
    requires bpc > 0
  {
    !Accepted(fat, bpc, offset, size) || (length + |FreeSet(fat)|) * bpc <= offset
  }

  /** Such a write still rewrites the end mark of the chain: it was looking for more, found some, and
      the mark was another one. */
  ghost predicate MarkChanges(fat: Fat, bpc: nat, offset: nat, size: nat, chain: seq<nat>)
    requires bpc > 0
  {
    && Accepted(fat, bpc, offset, size) && FreeSet(fat) != {}
    && (|chain| + |FreeSet(fat)|) * bpc <= offset
    && chain != [] && chain[|chain| - 1] < |fat| && fat[chain[|chain| - 1]] != MARK
  }

  lemma TailDistinct(chain: seq<nat>, extra: seq<nat>)
    requires NoRepeats(chain + extra)
    ensures NoRepeats(extra)
  {
    forall i, j | 0 <= i < j < |extra| ensures extra[i] != extra[j] {
      assert (chain + extra)[|chain| + i] == extra[i] && (chain + extra)[|chain| + j] == extra[j];
    }
  }

  /** An extension takes no more than the free clusters, and all of them where it falls short. */
  lemma ExtraCounts(before: Fat, after: Fat, chain: seq<nat>, extra: seq<nat>, needed: nat)
    requires Grew(before, after, chain, extra) && NoRepeats(extra) && Enough(before, chain, extra, needed)
    ensures |extra| <= |FreeSet(before)| && (extra != [] ==> FreeSet(before) != {})
    ensures |chain| + |extra| < needed ==> |extra| == |FreeSet(before)|
  {
    MembersSize(extra);
    var taken := Members(extra);
    forall x | x in taken ensures x in FreeSet(before) {
    }
    SubsetSize(taken, FreeSet(before));
    if |chain| + |extra| < needed {
      assert |chain + extra| == |chain| + |extra|;
      forall x | x in FreeSet(before) ensures x in taken {
      }
      assert taken == FreeSet(before);
    }
    if extra != [] {
      assert extra[0] in taken;
    }
  }

  /** What is stored is nothing exactly when chain and free clusters end before the offset. */
  lemma StoredIsNothing(bpc: nat, offset: nat, size: nat, length: nat, free: nat, extra: nat)
    requires bpc > 0 && size > 0 && extra <= free
    requires length + extra < Needed(bpc, offset + size) ==> extra == free
    ensures Stored(offset, size, (length + extra) * bpc) == 0 <==> (length + free) * bpc <= offset
  {
    StoredGrows(bpc, offset, size, length + extra, length + free);
    NeededIsEnough(bpc, offset + size);
    if length + extra >= Needed(bpc, offset + size) {
      StoredGrows(bpc, offset, size, Needed(bpc, offset + size), length + extra);
    }
  }

  /** The two exact conditions of a write, from what extending the chain came to. */
  lemma WriteOutcome(before: Fat, after: Fat, chain: seq<nat>, extra: seq<nat>, bpc: nat, offset: nat, size: nat)
    requires bpc > 0 && Accepted(before, bpc, offset, size) && Grew(before, after, chain, extra) && NoRepeats(extra)
    requires Enough(before, chain, extra, Needed(bpc, offset + size))
    requires chain != [] ==> chain[|chain| - 1] < |before|
    ensures Stored(offset, size, |chain + extra| * bpc) == 0 <==> StoresNothing(before, bpc, offset, size, |chain|)
    ensures StoresNothing(before, bpc, offset, size, |chain|) ==>
              (RolledBack(before, chain, extra) != before <==> MarkChanges(before, bpc, offset, size, chain))
    ensures MarkChanges(before, bpc, offset, size, chain) ==> StoresNothing(before, bpc, offset, size, |chain|)
  {
    hide Grew, Stored, RolledBack, FreeSet, Needed, Enough, NoRepeats;
    var needed := Needed(bpc, offset + size);
    ExtraCounts(before, after, chain, extra, needed);
    StoredIsNothing(bpc, offset, size, |chain|, |FreeSet(before)|, |extra|);
    RolledBackDiffers(before, chain, extra);
    NeededIsMore(bpc, offset, size, |chain|, |FreeSet(before)|, |extra|);
  }

  lemma RefusedOutcome(fat: Fat, bpc: nat, offset: nat, size: nat, chain: seq<nat>)
    requires bpc > 0
    ensures !Accepted(fat, bpc, offset, size) ==>
              StoresNothing(fat, bpc, offset, size, |chain|) && !MarkChanges(fat, bpc, offset, size, chain)
  {
  }

  lemma NowDistinct(fat: Fat, first: nat, chain: seq<nat>, extra: seq<nat>)
    requires if first == 0 then extra == [] else Chain(fat, first, chain + extra)
    ensures NoRepeats(extra)
  {
    if first != 0 {
      ChainIsDistinct(fat, first, chain + extra);
      TailDistinct(chain, extra);
    }
  }

  lemma NeededIsMore(bpc: nat, offset: nat, size: nat, length: nat, free: nat, extra: nat)
    requires bpc > 0 && size > 0 && extra <= free
    ensures (length + free) * bpc <= offset ==> length + extra < Needed(bpc, offset + size)
  {
    NeededIsEnough(bpc, offset + size);
    var needed := Needed(bpc, offset + size);
    if needed <= length + extra {
      assert (length + free) * bpc == needed * bpc + (length + free - needed) * bpc;
    }
  }

  lemma RolledBackDiffers(before: Fat, chain: seq<nat>, extra: seq<nat>)
    requires chain != [] ==> chain[|chain| - 1] < |before|
    ensures RolledBack(before, chain, extra) != before <==>
              extra != [] && chain != [] && before[chain[|chain| - 1]] != MARK
  {
    if extra != [] && chain != [] {
      var last := chain[|chain| - 1];
      assert before[last] == MARK ==> before[last := MARK] == before;
      assert before[last := MARK][last] == MARK;
    }
  }

  /** A write that stores nothing and yet changes the table: a one-cluster file ending in 0xFFF8, one
      free cluster, and a write that starts behind both. */
  method EndMarkCanChange() returns (before: Fat, after: Fat, written: nat)
    ensures written == 0 && before != after
    ensures SameVolume(before, after)
  {
    before := [EOC, MARK, EOC, 0, MARK];
    var file := new OpenFile(512, before, seq(5, _ => Zeros(512)), 2, 512);
    assert Chain(before, 2, [2]);
    assert FreeSet(before) == {3} by {
      assert IsFree(before, 3);
    }
    assert Accepted(before, 512, 1024, 10) && (1 + 1) * 512 <= 1024;
    ghost var extra;
    written, extra := file.Write(1024, Zeros(10), [2]);
    after := file.fat;
  }

  /** What a write reports as stored, a read returns. */
  method WriteThenRead(file: OpenFile, offset: nat, buffer: seq<byte>, ghost chain: seq<nat>)
    returns (written: nat, back: seq<byte>)
    requires file.Valid() && (if file.first == 0 then chain == [] else Chain(file.fat, file.first, chain))
    modifies file
    ensures file.Valid() && written <= |buffer|
    ensures written > 0 ==> back == buffer[..written]
  {
    hide Chain, Grew, SameVolume, Zeroed, CopiedTo, StoresNothing, MarkChanges, Enough, FileByte, Accepted;
    ghost var extra;
    written, extra := file.Write(offset, buffer, chain);
    if written == 0 {
      return 0, [];
    }
    ghost var all := chain + extra;
    ChainBounds(file.fat, file.first, all);
    back := file.Read(offset, written, all);
    ChainIsDistinct(file.fat, file.first, all);
    ghost var clean :|
      Zeroed(old(file.data), clean, extra) && CopiedTo(clean, file.data, all, file.bpc, offset, buffer, |all|);
    forall i | 0 <= i < written ensures back[i] == buffer[i] {
      CleanRows(old(file.data), clean, file.data, extra, all, file.bpc, offset, buffer);
      WrittenBytes(old(file.data), clean, file.data, chain, extra, file.bpc, offset, buffer, offset + i);
    }
  }

  lemma CleanRows(before: seq<seq<byte>>, clean: seq<seq<byte>>, after: seq<seq<byte>>, extra: seq<nat>, all: seq<nat>,
                  bpc: nat, offset: nat, buffer: seq<byte>)
    requires Zeroed(before, clean, extra) && CopiedTo(clean, after, all, bpc, offset, buffer, |all|)
    requires forall c :: 0 <= c < |after| ==> |after[c]| == bpc
    ensures forall c :: 0 <= c < |clean| ==> |clean[c]| == bpc
  {
    forall c | 0 <= c < |clean| ensures |clean[c]| == bpc {
      if c in all {
        var i :| 0 <= i < |all| && all[i] == c;
        assert after[all[i]] == PatchedRow(clean[all[i]], i * bpc, offset, buffer);
      }
    }
  }

  /** The same chains and the same free clusters. */
  ghost predicate SameVolume(before: Fat, after: Fat) {
    && (forall first, chain :: Chain(after, first, chain) <==> Chain(before, first, chain))
    && (forall c :: IsFree(after, c) <==> IsFree(before, c))
  }

  lemma NothingRolledBack(fat: Fat, first: nat, chain: seq<nat>)
    requires if first == 0 then chain == [] else Chain(fat, first, chain)
    ensures (chain == [] <==> first == 0) && (chain != [] ==> chain[|chain| - 1] < |fat|)
    ensures RolledBack(fat, chain, []) == fat && SameVolume(fat, fat)
  {
  }

  lemma GrewByNothing(before: Fat, after: Fat, chain: seq<nat>, extra: seq<nat>)
    requires Grew(before, after, chain, extra)
    ensures extra == [] ==> after == before
  {
  }

  lemma GrewFree(before: Fat, after: Fat, chain: seq<nat>, extra: seq<nat>)
    requires Grew(before, after, chain, extra)
    ensures extra != [] ==> IsFree(before, extra[0])
  {
  }

  lemma SomeNeeded(bpc: nat, end: nat)
    requires bpc > 0 && end > 0
    ensures Needed(bpc, end) >= 1
  {
    NeededIsEnough(bpc, end);
  }

  lemma RolledBackSame(before: Fat, first: nat, chain: seq<nat>, extra: seq<nat>)
    requires if first == 0 then chain == [] else Chain(before, first, chain)
    ensures (chain != [] ==> chain[|chain| - 1] < |before|) && SameVolume(before, RolledBack(before, chain, extra))
  {
    if chain != [] && extra != [] {
      ChainBounds(before, first, chain);
      EndIsLast(before, first, chain, |chain| - 1);
      SameChains(before, chain[|chain| - 1]);
    }
  }

  /** Linked clusters, one after the other. */
  ghost predicate Strand(fat: Fat, extra: seq<nat>) {
    && NoRepeats(extra) && (forall i :: 0 <= i < |extra| ==> ClusterValid(fat, extra[i]))
    && (forall i :: 0 <= i < |extra| - 1 ==> fat[extra[i]] == extra[i + 1])
  }

  /** Frees a strand from its first cluster on. */
  method ClearStrand(fat: Fat, start: nat, count: nat, ghost extra: seq<nat>) returns (r: Fat)
    requires Strand(fat, extra) && extra != [] && start == extra[0] && count == |extra|
    ensures r == Cleared(fat, extra)
  {
    r := fat;
    assert Cleared(fat, extra[..0]) == fat;
    var cluster, i := start, 0;
    while i < count && 2 <= cluster < |r|
      invariant 0 <= i <= count && |r| == |fat| && r == Cleared(fat, extra[..i])
      invariant i < count ==> cluster == extra[i] && 2 <= cluster < |r|
      decreases count - i
    {
      assert extra[i] !in extra[..i];
      var next: nat := r[cluster];
      r := r[cluster := 0];
      assert r == Cleared(fat, extra[..i + 1]);
      cluster := next;
      i := i + 1;
    }
    assert extra[..i] == extra;
  }

  lemma ExtraStrand(fat: Fat, first: nat, chain: seq<nat>, extra: seq<nat>)
    requires Chain(fat, first, chain + extra)
    ensures Strand(fat, extra)
    ensures (chain != [] ==> chain[|chain| - 1] < |fat| && Strand(fat[chain[|chain| - 1] := MARK], extra))
  {
    hide Chain;
    ExtraApart(fat, first, chain, extra);
    forall i | 0 <= i < |extra|
      ensures ClusterValid(fat, extra[i]) && extra[i] !in extra[..i]
      ensures (i + 1 < |extra| ==> fat[extra[i]] == extra[i + 1])
    {
      ExtraStep(fat, first, chain, extra, i);
    }
    forall i, j | 0 <= i < j < |extra| ensures extra[i] != extra[j] {
      assert extra[i] in extra[..j];
    }
  }

  lemma SameSize(before: Fat, after: Fat, chain: seq<nat>, extra: seq<nat>)
    requires Grew(before, after, chain, extra)
    ensures |after| == |before|
  {
  }

  /** Where the copying stops, all that fits has been stored. */
  lemma StoredAll(bpc: nat, offset: nat, size: nat, k: nat, needed: nat, n: nat)
    requires k <= n && offset + size <= needed * bpc && size > 0
    requires k == n || k >= needed || Stored(offset, size, k * bpc) == size
    ensures Stored(offset, size, k * bpc) == Stored(offset, size, n * bpc)
    ensures k == n || offset + size <= k * bpc
  {
    StoredGrows(bpc, offset, size, k, n);
    if k >= needed {
      StoredGrows(bpc, offset, size, needed, k);
    }
  }

  lemma CopiedOne(data0: seq<seq<byte>>, before: seq<seq<byte>>, after: seq<seq<byte>>, chain: seq<nat>, bpc: nat,
                  offset: nat, buffer: seq<byte>, k: nat)
    requires CopiedTo(data0, before, chain, bpc, offset, buffer, k) && k < |chain| && NoRepeats(chain)
    requires |after| == |before| && after[chain[k]] == PatchedRow(before[chain[k]], k * bpc, offset, buffer)
    requires forall c :: 0 <= c < |before| && c != chain[k] ==> after[c] == before[c]
    ensures CopiedTo(data0, after, chain, bpc, offset, buffer, k + 1)
  {
    hide PatchedRow;
    forall i | 0 <= i < |chain| && i != k ensures after[chain[i]] == before[chain[i]] {
      assert chain[i] != chain[k] by { assert i < k || k < i; }
    }
    assert chain[k] in chain;
  }

  lemma CopiedNothing(data: seq<seq<byte>>, chain: seq<nat>, bpc: nat, offset: nat, buffer: seq<byte>)
    requires forall i :: 0 <= i < |chain| ==> chain[i] < |data|
    ensures CopiedTo(data, data, chain, bpc, offset, buffer, 0)
  {
  }

  lemma CopiedRest(before: seq<seq<byte>>, after: seq<seq<byte>>, chain: seq<nat>, bpc: nat, offset: nat,
                   buffer: seq<byte>, k: nat)
    requires CopiedTo(before, after, chain, bpc, offset, buffer, k) && (k >= |chain| || offset + |buffer| <= k * bpc)
    ensures CopiedTo(before, after, chain, bpc, offset, buffer, |chain|)
  {
    forall i | k <= i < |chain| ensures after[chain[i]] == PatchedRow(before[chain[i]], i * bpc, offset, buffer) {
      StoredGrows(bpc, offset, |buffer|, k, i);
    }
  }

  lemma StoredNothing(offset: nat, size: nat, bpc: nat)
    ensures Stored(offset, size, 0 * bpc) == 0
  {
  }

  /** The first `k` clusters of the chain hold their part of the write. */
  ghost predicate CopiedTo(before: seq<seq<byte>>, after: seq<seq<byte>>, chain: seq<nat>, bpc: nat, offset: nat,
                           buffer: seq<byte>, k: nat) {
    && |after| == |before| && (forall i :: 0 <= i < |chain| ==> chain[i] < |before|)
    && (forall i :: 0 <= i < k && i < |chain| ==>
        after[chain[i]] == PatchedRow(before[chain[i]], i * bpc, offset, buffer))
    && (forall i :: k <= i < |chain| ==> after[chain[i]] == before[chain[i]])
    && (forall c :: 0 <= c < |before| && c !in chain ==> after[c] == before[c])
  }

  /** New clusters are zeroed, the others keep their data. */
  ghost predicate Zeroed(before: seq<seq<byte>>, after: seq<seq<byte>>, extra: seq<nat>) {
    && |after| == |before|
    && (forall c :: 0 <= c < |before| && c !in extra ==> after[c] == before[c])
    && (forall c :: 0 <= c < |after| && c in extra ==> AllZero(after[c]))
  }

  lemma GrewNothing(fat: Fat, chain: seq<nat>, data: seq<seq<byte>>)
    ensures Grew(fat, fat, chain, []) && Zeroed(data, data, [])
  {
  }

  lemma GrewMore(before: Fat, now: Fat, first: nat, chain: seq<nat>, extra: seq<nat>, c: u16, data: seq<seq<byte>>,
                 data': seq<seq<byte>>, bpc: nat)
    requires Grew(before, now, chain, extra) && Chain(now, first, chain + extra) && chain != [] && IsFree(now, c)
    requires c !in chain + extra
    requires Zeroed(data, data', extra) && |data| == |before|
    ensures var last := (chain + extra)[|chain + extra| - 1];
            Grew(before, now[c := MARK][last := c], chain, extra + [c as nat])
                && Zeroed(data, data'[c := Zeros(bpc)], extra + [c as nat])
  {
    var last := (chain + extra)[|chain + extra| - 1];
    assert c !in extra && c != chain[|chain| - 1] by {
      assert chain[|chain| - 1] == (chain + extra)[|chain| - 1];
    }
    assert extra != [] ==> last in extra;
    assert IsFree(before, c);
  }

  lemma ChainBounds(fat: Fat, first: nat, chain: seq<nat>)
    requires Chain(fat, first, chain)
    ensures chain != [] && chain[0] == first && forall i :: 0 <= i < |chain| ==> ClusterValid(fat, chain[i])
  {
  }

  /** One step along a chain. */
  lemma ChainStep(fat: Fat, first: nat, chain: seq<nat>, i: nat)
    requires Chain(fat, first, chain) && i < |chain|
    ensures ClusterValid(fat, chain[i])
    ensures i < |chain| - 1 ==> fat[chain[i]] == chain[i + 1] && 2 <= fat[chain[i]] < EOC
    ensures i == |chain| - 1 ==> fat[chain[i]] >= EOC
  {
    EndIsLast(fat, first, chain, i);
    assert i < |chain| - 1 ==> ClusterValid(fat, chain[i + 1]);
  }

  lemma ExtraStep(fat: Fat, first: nat, chain: seq<nat>, extra: seq<nat>, i: nat)
    requires Chain(fat, first, chain + extra) && i < |extra|
    ensures ClusterValid(fat, extra[i]) && extra[i] !in extra[..i]
    ensures i + 1 < |extra| ==> fat[extra[i]] == extra[i + 1] && ClusterValid(fat, extra[i + 1])
  {
    var all, n := chain + extra, |chain|;
    ChainIsDistinct(fat, first, all);
    assert all[n + i] == extra[i];
    if i + 1 < |extra| {
      assert all[n + i + 1] == extra[i + 1] && fat[all[n + i]] == all[n + i + 1];
    }
    forall j | 0 <= j < i ensures extra[j] != extra[i] {
      assert all[n + j] == extra[j];
    }
  }

  /** In a chain that was extended, the extension has nothing in common with the old part. */
  lemma ExtraApart(fat: Fat, first: nat, chain: seq<nat>, extra: seq<nat>)
    requires Chain(fat, first, chain + extra)
    ensures chain != [] ==> chain[|chain| - 1] < |fat| && chain[|chain| - 1] !in extra && chain[|chain| - 1] != 0
  {
    ChainIsDistinct(fat, first, chain + extra);
    if chain != [] {
      var all, n := chain + extra, |chain|;
      assert all[n - 1] == chain[n - 1];
      forall j | 0 <= j < |extra| ensures extra[j] != chain[n - 1] {
        assert all[n + j] == extra[j];
      }
    }
  }

  lemma ExtraNonzero(fat: Fat, first: nat, chain: seq<nat>, extra: seq<nat>)
    requires Chain(fat, first, chain + extra)
    ensures extra != [] ==> extra[0] != 0
  {
    if extra != [] {
      ExtraStep(fat, first, chain, extra, 0);
    }
  }

  /** A chain started and then extended has grown from nothing. */
  lemma GrewTwice(before: Fat, mid: Fat, after: Fat, first: nat, one: seq<nat>, more: seq<nat>,
                  data: seq<seq<byte>>, data1: seq<seq<byte>>, data2: seq<seq<byte>>)
    requires Grew(before, mid, [], one) && Grew(mid, after, one, more) && one == [first]
    requires (forall c :: c in more ==> c !in one)
    requires Zeroed(data, data1, one) && Zeroed(data1, data2, more)
    ensures Grew(before, after, [], one + more) && Zeroed(data, data2, one + more)
  {
    forall c | c in more ensures IsFree(before, c) {
      assert IsFree(mid, c) && c !in one;
    }
  }

  /** With nothing stored, no cluster in use has changed. */
  lemma NothingCopied(before: Fat, after: Fat, data0: seq<seq<byte>>, clean: seq<seq<byte>>, data: seq<seq<byte>>,
                      chain: seq<nat>, extra: seq<nat>,
                      bpc: nat, offset: nat, buffer: seq<byte>)
    requires Zeroed(data0, clean, extra) && CopiedTo(clean, data, chain + extra, bpc, offset, buffer, |chain + extra|)
    requires Stored(offset, |buffer|, |chain + extra| * bpc) == 0 && buffer != [] && bpc > 0
    requires Grew(before, after, chain, extra)
    requires forall c :: 0 <= c < |clean| ==> |clean[c]| == bpc
    ensures forall c :: 0 <= c < |data| && !IsFree(before, c) ==> data[c] == data0[c]
  {
    hide IsFree;
    var all := chain + extra;
    forall i | 0 <= i < |all| ensures data[all[i]] == clean[all[i]] {
      StoredGrows(bpc, offset, |buffer|, i + 1, |all|);
      assert (i + 1) * bpc == i * bpc + bpc;
      assert data[all[i]] == PatchedRow(clean[all[i]], i * bpc, offset, buffer);
      assert PatchedRow(clean[all[i]], i * bpc, offset, buffer) == clean[all[i]];
    }
    forall c | 0 <= c < |data| && !IsFree(before, c) ensures data[c] == data0[c] {
      if c in all {
        var i :| 0 <= i < |all| && all[i] == c;
      }
    }
  }
}

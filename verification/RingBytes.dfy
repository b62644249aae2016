/** Byte rings: address increments that wrap, the bytes read from a position in ring order, and
    what a wrapped copy changes. */
module RingBytes {
  import opened Words

  const BLOCK: nat := 64

  /** `udma_inc_ptr_wrap` on offsets. */
  function IncWrap(p: nat, inc: nat, size: nat): (r: nat)
    requires p < size && inc <= size
    ensures r < size
  {
    if p + inc < size then p + inc else p + inc - size
  }

  /** How far `i` lies behind `p` in ring order. */
  function Dist(p: nat, i: nat, size: nat): (d: nat)
    requires p < size && i < size
    ensures d < size && IncWrap(p, d, size) == i
  {
    if i >= p then i - p else i - p + size
  }

  /** The `n` bytes that follow `base` in ring order. */
  function Linear(buf: seq<byte>, base: nat, n: nat): (w: seq<byte>)
    requires base < |buf| && n <= |buf|
    ensures |w| == n
    ensures forall j :: 0 <= j < n ==> w[j] == buf[IncWrap(base, j, |buf|)]
  {
    seq(n, j requires 0 <= j < n => buf[IncWrap(base, j, |buf|)])
  }

  function Splice(w: seq<byte>, off: nat, bytes: seq<byte>): (r: seq<byte>)
    requires off + |bytes| <= |w|
    ensures |r| == |w|
    ensures r[..off] == w[..off] && r[off..off + |bytes|] == bytes && r[off + |bytes|..] == w[off + |bytes|..]
  {
    w[..off] + bytes + w[off + |bytes|..]
  }

  /** Byte `i` of a ring that is `buf` except that the window at `base` holds `w`. */
  function ByteAt(buf: seq<byte>, base: nat, w: seq<byte>, i: nat): byte
    requires base < |buf| && |w| <= |buf| && i < |buf|
  {
    if Dist(base, i, |buf|) < |w| then w[Dist(base, i, |buf|)] else buf[i]
  }

  ghost predicate OutsideSame(a: seq<byte>, b: seq<byte>, base: nat, n: nat) {
    && |a| == |b| && base < |a|
    && forall i :: 0 <= i < |a| && Dist(base, i, |a|) >= n ==> b[i] == a[i]
  }

  /** Wrapped writes are plain writes in ring order: the window at `base` holds `w`, and after a
      copy at distance `off` it holds `w` with the bytes spliced in, wherever the window starts and
      wherever the data straddles the end of the buffer. */
  lemma WriteWithin(buf: seq<byte>, base: nat, w: seq<byte>, off: nat, bytes: seq<byte>, i: nat)
    requires base < |buf| && off + |bytes| <= |w| <= |buf| && i < |buf|
    ensures var d := Dist(IncWrap(base, off, |buf|), i, |buf|);
            ByteAt(buf, base, Splice(w, off, bytes), i)
            == if d < |bytes| then bytes[d] else ByteAt(buf, base, w, i)
  {
  }

  /** The window reads back as written, and nothing outside it changed. */
  lemma WindowRead(buf: seq<byte>, base: nat, w: seq<byte>, ring: seq<byte>)
    requires base < |buf| == |ring| && |w| <= |buf|
    requires forall i :: 0 <= i < |ring| ==> ring[i] == ByteAt(buf, base, w, i)
    ensures Linear(ring, base, |w|) == w
    ensures OutsideSame(buf, ring, base, |w|)
  {
  }

  lemma OutsideSameWider(a: seq<byte>, b: seq<byte>, base: nat, n: nat, n': nat)
    requires OutsideSame(a, b, base, n) && n <= n'
    ensures OutsideSame(a, b, base, n')
  {
  }

  lemma WindowOfItself(buf: seq<byte>, base: nat, n: nat)
    requires base < |buf| && n <= |buf|
    ensures forall i :: 0 <= i < |buf| ==> buf[i] == ByteAt(buf, base, Linear(buf, base, n), i)
  {
  }

  // ---------------------------------------------------------------- blocks

  function BlockBase(k: nat, cnt: nat): (b: nat)
    requires cnt > 0
    ensures b + BLOCK <= BLOCK * cnt
  {
    Slot(k, cnt) * BLOCK
  }

  /** Block number `k` of the stream, at its place in a ring of `cnt` blocks. */
  function Block(buf: seq<byte>, k: nat, cnt: nat): seq<byte>
    requires cnt > 0 && |buf| == BLOCK * cnt
  {
    buf[BlockBase(k, cnt)..BlockBase(k, cnt) + BLOCK]
  }

  /** Inside a block the address moves without wrapping. */
  lemma SameBlock(base: nat, off: nat, d: nat, size: nat)
    requires base < size && base % BLOCK == 0 && size % BLOCK == 0
    requires off % BLOCK + d < BLOCK && off + d <= size
    ensures IncWrap(base, off + d, size) == IncWrap(base, off, size) + d
  {
  }

  lemma LinearByte(s: nat, j: nat, cnt: nat)
    requires cnt > 0 && j < BLOCK * cnt
    ensures IncWrap(BlockBase(s, cnt), j, BLOCK * cnt) == BlockBase(s + j / BLOCK, cnt) + j % BLOCK
  {
    SlotStep(s, j / BLOCK, cnt);
  }

  /** Bytes in ring order depend only on the blocks they lie in. */
  lemma LinearOfBlocks(a: seq<byte>, b: seq<byte>, s: nat, nb: nat, cnt: nat)
    requires 0 < cnt && |a| == |b| == BLOCK * cnt && nb <= cnt
    requires forall k :: s <= k < s + nb ==> Block(a, k, cnt) == Block(b, k, cnt)
    ensures Linear(a, BlockBase(s, cnt), BLOCK * nb) == Linear(b, BlockBase(s, cnt), BLOCK * nb)
  {
    var base := BlockBase(s, cnt);
    forall j | 0 <= j < BLOCK * nb
      ensures Linear(a, base, BLOCK * nb)[j] == Linear(b, base, BLOCK * nb)[j]
    {
      var k := s + j / BLOCK;
      LinearByte(s, j, cnt);
      assert Block(a, k, cnt)[j % BLOCK] == Block(b, k, cnt)[j % BLOCK];
    }
  }

  /** Writing a window of free blocks leaves every block in use alone. */
  lemma WindowSparesBlock(a: seq<byte>, b: seq<byte>, p: nat, nb: nat, k: nat, cnt: nat)
    requires 0 < cnt && |a| == BLOCK * cnt
    requires OutsideSame(a, b, BlockBase(p, cnt), BLOCK * nb)
    requires k < p && p + nb - k <= cnt
    ensures Block(b, k, cnt) == Block(a, k, cnt)
  {
    SlotStep(k, p - k, cnt);
    var at := BlockBase(k, cnt);
    forall o | 0 <= o < BLOCK
      ensures Block(b, k, cnt)[o] == Block(a, k, cnt)[o]
    {
      assert Dist(BlockBase(p, cnt), at + o, |a|) >= BLOCK * nb;
      assert b[at + o] == a[at + o];
    }
  }
}

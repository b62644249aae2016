/** How many blocks a queue gets for a requested depth. */
module QueueSizing {
  import opened Words

  /** The bit length of `v`, `ILOG64`. */
  function BitLength(v: nat): nat {
    if v == 0 then 0 else 1 + BitLength(v / 2)
  }

  function RoundupPow2(n: nat): nat
    requires n > 0
  {
    if n == 1 then 1 else Pow2(BitLength(n - 1))
  }

  ghost predicate LeastShift(k: nat, n: nat) {
    n <= Pow2(k) && (k > 0 ==> Pow2(k - 1) < n)
  }

  lemma {:induction false} BitLengthBounds(v: nat)
    ensures v < Pow2(BitLength(v)) && (v > 0 ==> Pow2(BitLength(v) - 1) <= v)
  {
    if v == 0 {
    } else {
      BitLengthBounds(v / 2);
    }
  }

  lemma RoundupIsLeast(n: nat) returns (k: nat)
    requires n > 0
    ensures RoundupPow2(n) == Pow2(k) && LeastShift(k, n)
  {
    k := if n == 1 then 0 else BitLength(n - 1);
    if n > 1 {
      BitLengthBounds(n - 1);
    }
  }

  lemma LeastUnique(a: nat, b: nat, n: nat)
    requires LeastShift(a, n) && LeastShift(b, n)
    ensures a == b
  {
    if a < b {
      Pow2Monotonic(a, b - 1);
    } else if b < a {
      Pow2Monotonic(b, a - 1);
    }
  }

  /** The least sufficient shift.  None stands for an `n` above 2^31, for which the source would have to
      shift a 32-bit one by 32 places. */
  method AlignPower2(n: u32) returns (res: Option<nat>)
    ensures res.None? <==> n > 0x8000_0000
    ensures res.Some? ==> LeastShift(res.value, n) && res.value <= 31
  {
    Pow2Top();
    var k := 0;
    while Pow2(k) < n
      invariant k <= 31 && (k > 0 ==> Pow2(k - 1) < n)
      decreases 31 - k
    {
      if k == 31 {
        return None;
      }
      k := k + 1;
    }
    Pow2Monotonic(k, 31);
    res := Some(k);
  }

  lemma Pow2Top()
    ensures Pow2(31) == 0x8000_0000
  {
    Pow2Values();
    assert Pow2(32) == 2 * Pow2(31);
  }

  /** `(v + a - 1) & ~(a - 1)` for a power of two `a`. */
  function Align(v: nat, a: nat): nat
    requires a > 0
  {
    (v + a - 1) / a * a
  }

  /** Aligning one power of two to another gives the larger. */
  lemma AlignPowers(s: nat, p: nat)
    ensures Align(Pow2(s), Pow2(p)) == if s < p then Pow2(p) else Pow2(s)
  {
    var a := Pow2(p);
    if s < p {
      Pow2Monotonic(s, p);
      DivModUnique(Pow2(s) + a - 1, 1, Pow2(s) - 1, a);
      Pow2Monotonic(s + 1, p);
    } else {
      Pow2Add(s - p, p);
      DivModUnique(Pow2(s) + a - 1, Pow2(s - p), a - 1, a);
    }
  }

  lemma PowDiv(s: nat, b: nat)
    requires b <= s
    ensures Pow2(s) / Pow2(b) == Pow2(s - b)
  {
    Pow2Add(s - b, b);
    DivModUnique(Pow2(s), Pow2(s - b), 0, Pow2(b));
  }

  function Bytes(blocks: nat, blockSize: nat): nat { blocks * blockSize }

  function Units(bytes: nat, blockSize: nat): nat
    requires blockSize > 0
  {
    bytes / blockSize
  }

  /** A power of two, reduced to 32 bits: itself or 0. */
  lemma WrapPower(k: nat)
    ensures Wrap32(Pow2(k)) == if k < 32 then Pow2(k) else 0
    ensures Pow2(k) < M32 <==> k < 32
  {
    Pow2Values();
    if k < 32 {
      Pow2Top();
      Pow2Monotonic(k, 31);
    } else {
      Pow2Monotonic(32, k);
      Pow2Add(k - 32, 32);
      DivModUnique(Pow2(k), Pow2(k - 32), 0, M32);
    }
  }

  /** The 32-bit product of the rounded-up entry count, itself cut to 32 bits, and the block size. */
  function BufferBytes(maxEntries: u32, blockSize: u32): u32
    requires maxEntries > 0
  {
    Wrap32(Bytes(Wrap32(RoundupPow2(maxEntries)), blockSize))
  }

  lemma BufferBytesIs(maxEntries: u32, k: nat, b: nat)
    requires maxEntries > 0 && RoundupPow2(maxEntries) == Pow2(k) && b <= 31 && Pow2(b) < M32
    ensures BufferBytes(maxEntries, Pow2(b)) == if k + b < 32 then Pow2(k + b) else 0
    ensures Bytes(RoundupPow2(maxEntries), Pow2(b)) == Pow2(k + b)
  {
    WrapPower(k);
    WrapPower(k + b);
    PowBytes(k, b);
    if k >= 32 {
      assert Bytes(0, Pow2(b)) == 0;
    }
  }

  /** The number of blocks of the buffer: one page's worth when the product wraps to 0. */
  lemma Blocks(k: nat, b: nat, p: nat, shift: nat, n: nat)
    requires b <= p <= 31 && LeastShift(k, n) && shift == if k + b < 32 then k + b else 0
    ensures var s := if shift < p then p else shift;
      && Units(Pow2(s), Pow2(b)) == Pow2(s - b) && Pow2(s) == Bytes(Pow2(s - b), Pow2(b))
      && RingCount(Pow2(s - b)) && Pow2(p) <= Pow2(s) && (s == p || s - b == k)
      && (n <= Pow2(s - b) <==> k + b < 32)
  {
    var s := if shift < p then p else shift;
    PowDiv(s, b);
    PowBytes(s - b, b);
    Pow2Monotonic(p, s);
    if k + b < 32 {
      Pow2Monotonic(k, s - b);
    } else {
      Pow2Monotonic(p - b, k - 1);
    }
  }

  /** `udma_u_alloc_queue_buf`: a power-of-two number of blocks, at least one page.  It covers the
      requested entries if and only if their rounded-up size is less than 2^32 bytes.  `b` and `p` are the
      logarithms of the block and page sizes. */
  method QueueBlocks(maxEntries: u32, ghost b: nat, blockSize: u32, ghost p: nat, pageSize: u32)
    returns (size: nat, cnt: nat)
    requires maxEntries > 0 && blockSize == Pow2(b) && pageSize == Pow2(p) && b <= p <= 31
    ensures RingCount(cnt) && size == Bytes(cnt, blockSize) && pageSize <= size
    ensures maxEntries <= cnt <==> Bytes(RoundupPow2(maxEntries), blockSize) < M32
    ensures cnt == RoundupPow2(maxEntries) || size == pageSize
  {
    hide LeastShift;
    hide RoundupPow2;
    hide Align;
    hide Pow2;
    hide RingCount;
    hide Bytes;
    hide Units;
    hide BufferBytes;
    ghost var k := RoundupIsLeast(maxEntries);
    BufferBytesIs(maxEntries, k, b);
    WrapPower(k + b);
    var bytes := BufferBytes(maxEntries, blockSize);
    ShiftOf(k + b);
    var bufShift := AlignPower2(bytes);
    ShiftOf(b);
    var blockShift := AlignPower2(blockSize);
    LeastUnique(bufShift.value, if k + b < 32 then k + b else 0, bytes);
    LeastUnique(blockShift.value, b, blockSize);
    AlignPowers(bufShift.value, p);
    size := Align(Pow2(bufShift.value), pageSize);
    cnt := Units(size, Pow2(blockShift.value));
    Blocks(k, b, p, bufShift.value, maxEntries);
  }

  /** A 32-bit power of two, or the 0 it wraps to, has a shift. */
  lemma ShiftOf(k: nat)
    ensures k < 32 ==> Pow2(k) <= 0x8000_0000 && LeastShift(k, Pow2(k))
    ensures LeastShift(0, 0)
  {
    Pow2Top();
    if k < 32 {
      Pow2Monotonic(k, 31);
    }
  }

  /** 2^26 entries of 64 bytes: the product is 2^32, which wraps to 0, and the buffer is one page of 64
      blocks. */
  lemma SizeWraps()
    ensures RoundupPow2(0x400_0000) == 0x400_0000
    ensures BufferBytes(0x400_0000, 64) == 0 && Align(Pow2(0), 4096) / 64 == 64
  {
    Pow2Values();
    assert Pow2(26) == 0x400_0000 by {
      Pow2Add(16, 10);
      assert Pow2(10) == 1024;
    }
    var k := RoundupIsLeast(0x400_0000);
    LeastPower(26);
    LeastUnique(k, 26, 0x400_0000);
  }

  lemma PowBytes(k: nat, b: nat)
    ensures Bytes(Pow2(k), Pow2(b)) == Pow2(k + b)
  {
    Pow2Add(k, b);
  }

  lemma LeastPower(k: nat)
    ensures LeastShift(k, Pow2(k))
  {
  }
}

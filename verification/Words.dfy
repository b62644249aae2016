/** Fixed-width integers, powers of two and the arithmetic of free-running counters.

    The drivers keep 32-bit producer and consumer counters that are never reset on wrap and are
    reduced with `& (count - 1)`, where `count` is a power of two.  On values this mask is
    `% count`, and `>> k` is `/ Pow2(k)`.  The lemmas here connect a 32-bit counter with the
    unbounded count it stands for. */
module Words {

  const M32: int := 0x1_0000_0000
  const M64: int := 0x1_0000_0000_0000_0000

  type byte = x: int | 0 <= x < 256
  type u32 = x: int | 0 <= x < 0x1_0000_0000
  type u64 = x: int | 0 <= x < 0x1_0000_0000_0000_0000

  datatype Option<+T> = None | Some(value: T)

  /** The 32-bit counter that stands for the unbounded count `n`. */
  function Wrap32(n: int): u32 { n % M32 }

  function Add32(a: int, b: int): u32 { Wrap32(a + b) }

  function Sub32(a: int, b: int): u32 { Wrap32(a - b) }

  /** `k & (cnt - 1)` for a power of two `cnt`. */
  function Slot(k: nat, cnt: nat): (s: nat)
    requires cnt > 0
    ensures s < cnt
  {
    k % cnt
  }

  lemma SmallAdd(a: nat, b: nat)
    requires a + b < M32
    ensures Add32(a, b) == a + b
  {
  }

  ghost predicate NoDup<T>(s: seq<T>) {
    forall i, j :: 0 <= i < j < |s| ==> s[i] != s[j]
  }

  lemma NoDupAppend<T>(a: seq<T>, b: seq<T>)
    requires NoDup(a) && NoDup(b) && forall i :: 0 <= i < |b| ==> b[i] !in a
    ensures NoDup(a + b)
  {
  }

  function Min(a: int, b: int): int { if a < b then a else b }

  function Pow2(k: nat): (r: nat)
    ensures r > 0
  {
    if k == 0 then 1 else 2 * Pow2(k - 1)
  }

  lemma {:induction false} Pow2Add(a: nat, b: nat)
    ensures Pow2(a + b) == Pow2(a) * Pow2(b)
  {
    if a == 0 {
    } else {
      Pow2Add(a - 1, b);
      assert 2 * (Pow2(a - 1) * Pow2(b)) == (2 * Pow2(a - 1)) * Pow2(b);
    }
  }

  lemma Pow2Values()
    ensures Pow2(6) == 64 && Pow2(16) == 0x1_0000 && Pow2(32) == M32
  {
    assert Pow2(4) == 16;
    Pow2Add(4, 2);
    Pow2Add(4, 4);
    Pow2Add(8, 8);
    Pow2Add(16, 16);
  }

  lemma {:induction false} Pow2Monotonic(a: nat, b: nat)
    requires a <= b
    ensures Pow2(a) <= Pow2(b)
    decreases b
  {
    if a < b {
      Pow2Monotonic(a, b - 1);
    }
  }

  /** A ring of `cnt` blocks indexed by 32-bit counters: a power of two of at most 2^31. */
  ghost predicate RingCount(cnt: nat) {
    exists k: nat :: k <= 31 && cnt == Pow2(k)
  }

  lemma MultipleBound(k: int, m: int)
    requires m > 0
    ensures k >= 1 ==> k * m >= m
    ensures k <= -1 ==> k * m <= -m
  {
  }

  lemma DivModUnique(x: int, q: int, r: int, m: int)
    requires 0 <= r < m
    requires x == q * m + r
    ensures x / m == q && x % m == r
  {
    var q', r' := x / m, x % m;
    SameRemainder(q, r, q', r', m);
  }

  lemma SameRemainder(q: int, r: int, q': int, r': int, m: int)
    requires 0 <= r < m && 0 <= r' < m
    requires q * m + r == m * q' + r'
    ensures q == q' && r == r'
  {
    var k := q' - q;
    assert k * m == q' * m - q * m;
    MultipleBound(k, m);
  }

  /** Reducing modulo a multiple of `m` first does not change the residue modulo `m`. */
  lemma ModOfMultiple(x: int, m: nat, q: nat)
    requires 0 < m && 0 < q
    ensures m * q > 0
    ensures (x % (m * q)) % m == x % m
  {
    var n := m * q;
    assert n > 0;
    var d, r := x / n, x % n;
    var d', r' := r / m, r % m;
    assert x == n * d + r && r == m * d' + r';
    assert n * d == (q * d) * m;
    assert x == (q * d + d') * m + r';
    DivModUnique(x, q * d + d', r', m);
  }

  lemma WrapAdd(n: int, d: int)
    ensures Add32(Wrap32(n), d) == Wrap32(n + d)
  {
  }

  lemma WrapSmall(n: nat)
    requires n < M32
    ensures Wrap32(n) == n
  {
  }

  /** Counters less than 2^32 apart: their 32-bit difference is their distance. */
  lemma CounterDistance(a: nat, b: nat)
    requires b <= a < b + M32
    ensures Sub32(Wrap32(a), Wrap32(b)) == a - b
    ensures Wrap32(a) == Wrap32(b) <==> a == b
  {
  }

  /** A 32-bit counter and the unbounded count it stands for pick the same ring slot. */
  lemma CounterSlot(n: int, cnt: nat)
    requires RingCount(cnt)
    ensures cnt > 0 && Wrap32(n) % cnt == n % cnt
    ensures n >= 0 ==> Slot(Wrap32(n), cnt) == Slot(n, cnt)
  {
    var k: nat :| k <= 31 && cnt == Pow2(k);
    Pow2Add(k, 32 - k);
    Pow2Values();
    ModOfMultiple(n, cnt, Pow2(32 - k));
  }

  /** ... and the same lap parity, because two whole laps divide 2^32. */
  lemma CounterLap(n: nat, cnt: nat)
    requires RingCount(cnt)
    ensures cnt > 0 && (Wrap32(n) / cnt) % 2 == (n / cnt) % 2
  {
    var k: nat :| k <= 31 && cnt == Pow2(k);
    Pow2Add(k + 1, 31 - k);
    Pow2Values();
    var two := 2 * cnt;
    ModOfMultiple(n, two, Pow2(31 - k));
    LapParity(n, cnt);
    LapParity(n % M32, cnt);
  }

  lemma LapParity(n: nat, cnt: nat)
    requires cnt > 0
    ensures (n / cnt) % 2 == (n % (2 * cnt)) / cnt
  {
    var q, r := n / cnt, n % cnt;
    var h, p := q / 2, q % 2;
    assert n == cnt * q + r && q == 2 * h + p;
    assert n == h * (2 * cnt) + (p * cnt + r) by {
      assert cnt * q == cnt * (2 * h) + cnt * p;
    }
    assert 0 <= p * cnt + r < 2 * cnt;
    DivModUnique(n, h, p * cnt + r, 2 * cnt);
    DivModUnique(p * cnt + r, p, r, cnt);
  }

  /** Counters less than a lap apart fall into different slots. */
  lemma SlotsDistinct(a: int, b: int, cnt: nat)
    requires 0 < cnt
    requires 0 <= a < b < a + cnt
    ensures Slot(a, cnt) != Slot(b, cnt)
  {
    var qa, qb, r := a / cnt, b / cnt, a % cnt;
    if r == b % cnt {
      SameSlotDistance(a, qa, b, qb, r, cnt);
    }
  }

  lemma SameSlotDistance(a: int, qa: int, b: int, qb: int, r: int, cnt: int)
    requires 0 < cnt
    requires a == cnt * qa + r && b == cnt * qb + r
    ensures a == b || b - a >= cnt || a - b >= cnt
  {
    var k := qb - qa;
    assert k * cnt == b - a;
    MultipleBound(k, cnt);
  }

  /** Stepping a slot by less than a lap wraps at most once. */
  lemma SlotStep(a: nat, d: nat, cnt: nat)
    requires 0 < cnt && d <= cnt
    ensures Slot(a + d, cnt) == if Slot(a, cnt) + d < cnt then Slot(a, cnt) + d else Slot(a, cnt) + d - cnt
  {
    var q, r := a / cnt, a % cnt;
    assert a == cnt * q + r;
    if r + d < cnt {
      DivModUnique(a + d, q, r + d, cnt);
    } else {
      assert a + d == (q + 1) * cnt + (r + d - cnt);
      DivModUnique(a + d, q + 1, r + d - cnt, cnt);
    }
  }

  /** The next lap: the same slot, one lap later. */
  lemma NextLap(a: nat, cnt: nat)
    requires 0 < cnt
    ensures Slot(a + cnt, cnt) == Slot(a, cnt) && (a + cnt) / cnt == a / cnt + 1
  {
    assert a + cnt == (a / cnt + 1) * cnt + a % cnt;
    DivModUnique(a + cnt, a / cnt + 1, a % cnt, cnt);
  }
}

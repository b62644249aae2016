/** Searching a bitmap word by word, against a linear scan of its bits. */
module BitmapScan {
  import opened Words
  import opened BitWords

  function BitAt(words: seq<Word>, i: nat): bool
    requires i < 64 * |words|
  {
    words[i / 64][i % 64]
  }

  /** The reference: the first position in `[begin, end)` whose bit is `target`, or `end`. */
  function LinearScan(words: seq<Word>, target: bool, begin: nat, end: nat): (r: nat)
    requires end <= 64 * |words|
    decreases end - begin
  {
    if begin >= end then end
    else if BitAt(words, begin) == target then begin
    else LinearScan(words, target, begin + 1, end)
  }

  ghost predicate NoHit(words: seq<Word>, target: bool, a: nat, b: nat)
    requires b <= 64 * |words|
  {
    forall j :: a <= j < b ==> BitAt(words, j) != target
  }

  lemma {:induction false} ScanFinds(words: seq<Word>, target: bool, begin: nat, end: nat, i: nat)
    requires end <= 64 * |words| && begin <= i < end && NoHit(words, target, begin, i) && BitAt(words, i) == target
    ensures LinearScan(words, target, begin, end) == i
    decreases i - begin
  {
    if begin == i {
    } else {
      ScanFinds(words, target, begin + 1, end, i);
    }
  }

  lemma {:induction false} ScanMisses(words: seq<Word>, target: bool, begin: nat, end: nat)
    requires begin <= end <= 64 * |words| && NoHit(words, target, begin, end)
    ensures LinearScan(words, target, begin, end) == end
    decreases end - begin
  {
    if begin == end {
    } else {
      ScanMisses(words, target, begin + 1, end);
    }
  }

  lemma {:induction false} ScanIsFirst(words: seq<Word>, target: bool, begin: nat, end: nat)
    requires begin <= end <= 64 * |words|
    ensures var r := LinearScan(words, target, begin, end);
      begin <= r <= end && NoHit(words, target, begin, r) && (r < end ==> BitAt(words, r) == target)
    decreases end - begin
  {
    if begin == end || BitAt(words, begin) == target {
    } else {
      ScanIsFirst(words, target, begin + 1, end);
    }
  }

  // -------------------------------------------------------------- word operations

  /** The word whose set bits are the hits. */
  function Hits(w: Word, target: bool): (r: Word)
    ensures forall b :: 0 <= b < 64 ==> r[b] == (w[b] == target)
  {
    seq(64, b requires 0 <= b < 64 => w[b] == target)
  }

  function ShiftRight(w: Word, k: nat): (r: Word)
    requires k < 64
    ensures forall b :: 0 <= b < 64 ==> r[b] == (b + k < 64 && w[b + k])
  {
    seq(64, b requires 0 <= b < 64 => b + k < 64 && w[b + k])
  }

  /** `w & (~0 << k)`. */
  function ClearBelow(w: Word, k: nat): (r: Word)
    ensures forall b :: 0 <= b < 64 ==> r[b] == (b >= k && w[b])
  {
    seq(64, b requires 0 <= b < 64 => b >= k && w[b])
  }

  /** Word `k` has no hit at or above its bit `from`. */
  lemma WordMisses(words: seq<Word>, target: bool, k: nat, from: nat)
    requires k < |words| && from <= 64
    requires forall b :: from <= b < 64 ==> words[k][b] != target
    ensures NoHit(words, target, 64 * k + from, 64 * k + 64)
  {
  }

  lemma WordHits(words: seq<Word>, target: bool, k: nat, from: nat, bit: nat)
    requires k < |words| && from <= bit < 64 && words[k][bit] == target
    requires forall b :: from <= b < bit ==> words[k][b] != target
    ensures NoHit(words, target, 64 * k + from, 64 * k + bit) && BitAt(words, 64 * k + bit) == target
  {
  }

  lemma NoHitJoin(words: seq<Word>, target: bool, a: nat, b: nat, c: nat)
    requires a <= b <= c <= 64 * |words| && NoHit(words, target, a, b) && NoHit(words, target, b, c)
    ensures NoHit(words, target, a, c)
  {
  }

  // -------------------------------------------------------------- urpc_bitmap_scan

  method Scan(words: seq<Word>, target: bool, begin: nat, end: nat) returns (r: nat)
    requires end <= 64 * |words|
    ensures r == LinearScan(words, target, begin, end)
  {
    if begin >= end {
      return end;
    }
    hide BitAt;
    hide LinearScan;
    hide NoHit;
    var k, shift := begin / 64, begin % 64;
    var bits := ShiftRight(Hits(words[k], target), shift);
    var i := begin;
    if bits == Zeros() {
      FirstWordMisses(words, target, k, shift);
      k, bits := NextWord(words, target, k, end, begin);
      if bits == Zeros() {
        ScanMisses(words, target, begin, end);
        return end;
      }
      i := 64 * k;
    } else {
      FirstWordHits(words, target, k, shift, LowBit(bits));
    }
    i := i + LowBit(bits);
    if i < end {
      ScanFinds(words, target, begin, end, i);
      return i;
    }
    NoHitPart(words, target, begin, end, i);
    ScanMisses(words, target, begin, end);
    return end;
  }

  /** The loop over the words after word `k0`: the first one with a hit, or no bits at all. */
  method NextWord(words: seq<Word>, target: bool, k0: nat, end: nat, ghost begin: nat) returns (k: nat, bits: Word)
    requires end <= 64 * |words| && k0 < |words| && begin < 64 * (k0 + 1) && NoHit(words, target, begin, 64 * (k0 + 1))
    ensures bits == Zeros() ==> begin < end ==> NoHit(words, target, begin, end)
    ensures bits != Zeros() ==> k0 < k && 64 * k < end && 64 * k + LowBit(bits) < 64 * |words|
    ensures bits != Zeros() ==> NoHit(words, target, begin, 64 * k + LowBit(bits))
    ensures bits != Zeros() ==> BitAt(words, 64 * k + LowBit(bits)) == target
  {
    hide BitAt;
    hide NoHit;
    k, bits := k0, Zeros();
    while 64 * (k + 1) < end
      invariant k0 <= k < |words| && bits == Zeros() && NoHit(words, target, begin, 64 * (k + 1))
      decreases |words| - k
    {
      k := k + 1;
      bits := Hits(words[k], target);
      if bits != Zeros() {
        WordHits(words, target, k, 0, LowBit(bits));
        NoHitJoin(words, target, begin, 64 * k, 64 * k + LowBit(bits));
        return;
      }
      assert forall b :: 0 <= b < 64 ==> !Zeros()[b];
      WordMisses(words, target, k, 0);
      NoHitJoin(words, target, begin, 64 * k, 64 * (k + 1));
    }
    NoHitPart(words, target, begin, end, 64 * (k + 1));
  }

  lemma NoHitPart(words: seq<Word>, target: bool, a: nat, b: nat, c: nat)
    requires b <= c <= 64 * |words| && NoHit(words, target, a, c)
    ensures NoHit(words, target, a, b)
  {
  }

  lemma FirstWordMisses(words: seq<Word>, target: bool, k: nat, shift: nat)
    requires k < |words| && shift < 64 && ShiftRight(Hits(words[k], target), shift) == Zeros()
    ensures NoHit(words, target, 64 * k + shift, 64 * k + 64)
  {
    forall b | shift <= b < 64
      ensures words[k][b] != target
    {
      assert !ShiftRight(Hits(words[k], target), shift)[b - shift];
    }
    WordMisses(words, target, k, shift);
  }

  lemma FirstWordHits(words: seq<Word>, target: bool, k: nat, shift: nat, bit: nat)
    requires k < |words| && shift < 64 && bit < 64 && ShiftRight(Hits(words[k], target), shift)[bit]
    requires forall b :: 0 <= b < bit ==> !ShiftRight(Hits(words[k], target), shift)[b]
    ensures bit + shift < 64 && NoHit(words, target, 64 * k + shift, 64 * k + shift + bit)
    ensures BitAt(words, 64 * k + shift + bit) == target
  {
    forall b | shift <= b < shift + bit
      ensures words[k][b] != target
    {
      assert !ShiftRight(Hits(words[k], target), shift)[b - shift];
    }
    WordHits(words, target, k, shift, shift + bit);
  }

  // -------------------------------------------------------------- find_next_bit

  /** The number of bits in the words that hold `size` bits. */
  function WholeBits(size: nat): (r: nat)
    ensures size <= r < size + 64
  {
    (size + 63) / 64 * 64
  }

  lemma WholeWord(size: nat, offset: nat)
    requires offset < size
    ensures 64 * (offset / 64) + offset % 64 == offset && 64 * (offset / 64) + 64 <= WholeBits(size)
  {
  }

  /** What `find_next_bit` returns: it scans whole words, so it may find a bit at or beyond `size`. */
  function NextBit(words: seq<Word>, target: bool, size: nat, offset: nat): (r: nat)
    requires WholeBits(size) <= 64 * |words|
  {
    var r := LinearScan(words, target, offset, WholeBits(size));
    if offset >= size || r >= WholeBits(size) then size else r
  }

  method FindNextBit(words: seq<Word>, size: nat, offset: nat, target: bool) returns (r: nat)
    requires WholeBits(size) <= 64 * |words|
    ensures r == NextBit(words, target, size, offset)
  {
    if offset >= size || size == 0 {
      return size;
    }
    hide BitAt;
    hide LinearScan;
    hide NoHit;
    WholeWord(size, offset);
    hide WholeBits;
    var i, from := offset / 64, offset % 64;
    var tmp := ClearBelow(Hits(words[i], target), from);
    if tmp != Zeros() {
      LowMasked(words, target, i, from, LowBit(tmp));
      ScanFinds(words, target, offset, WholeBits(size), 64 * i + LowBit(tmp));
      return 64 * i + LowBit(tmp);
    }
    MaskMisses(words, target, i, from);
    i, tmp := NextWord(words, target, i, WholeBits(size), offset);
    if tmp != Zeros() {
      ScanFinds(words, target, offset, WholeBits(size), 64 * i + LowBit(tmp));
      return 64 * i + LowBit(tmp);
    }
    ScanMisses(words, target, offset, WholeBits(size));
    return size;
  }

  lemma LowMasked(words: seq<Word>, target: bool, i: nat, from: nat, bit: nat)
    requires i < |words| && from < 64 && bit < 64 && ClearBelow(Hits(words[i], target), from)[bit]
    requires forall b :: 0 <= b < bit ==> !ClearBelow(Hits(words[i], target), from)[b]
    ensures from <= bit && NoHit(words, target, 64 * i + from, 64 * i + bit) && BitAt(words, 64 * i + bit) == target
  {
  }

  lemma MaskMisses(words: seq<Word>, target: bool, i: nat, from: nat)
    requires i < |words| && from < 64 && ClearBelow(Hits(words[i], target), from) == Zeros()
    ensures NoHit(words, target, 64 * i + from, 64 * i + 64)
  {
  }

  /** A result below `size` is the linear scan's, and there is one exactly when the scan finds one. */
  lemma NextBitInRange(words: seq<Word>, target: bool, size: nat, offset: nat)
    requires WholeBits(size) <= 64 * |words| && offset <= size
    ensures var r, s := NextBit(words, target, size, offset), LinearScan(words, target, offset, size);
      (r < size <==> s < size) && (r < size ==> r == s)
  {
    var s := LinearScan(words, target, offset, size);
    ScanIsFirst(words, target, offset, size);
    ScanIsFirst(words, target, offset, WholeBits(size));
    if s < size {
      ScanFinds(words, target, offset, WholeBits(size), s);
    }
  }

  /** The result equals the linear scan if and only if there is a hit up to position `size`, or none in
      the unused bits of the last word. */
  lemma NextBitExact(words: seq<Word>, target: bool, size: nat, offset: nat)
    requires WholeBits(size) <= 64 * |words| && offset < size
    ensures NextBit(words, target, size, offset) == LinearScan(words, target, offset, size)
       <==> !NoHit(words, target, offset, Min(size + 1, WholeBits(size))) || NoHit(words, target, size, WholeBits(size))
  {
    NextBitInRange(words, target, size, offset);
    ScanIsFirst(words, target, offset, size);
    ScanIsFirst(words, target, offset, WholeBits(size));
  }

  /** One bit in use, and it is set: the search for a clear bit answers with the first clear unused bit. */
  lemma NextBitOvershoots()
    ensures var words := [Zeros()[0 := true]];
      NextBit(words, false, 1, 0) == 1 == LinearScan(words, false, 0, 1)
    ensures var words := [Zeros()[0 := true][1 := true]];
      NextBit(words, false, 1, 0) == 2 != LinearScan(words, false, 0, 1)
  {
  }
}

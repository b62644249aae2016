/** Bitmaps kept in 64-bit words.  A word is written as its 64 bits, the least significant first. */
module BitWords {

  type Word = w: seq<bool> | |w| == 64 witness seq(64, _ => false)

  function Zeros(): (w: Word)
    ensures forall b :: 0 <= b < 64 ==> !w[b]
  {
    seq(64, _ => false)
  }

  function Ones(): (w: Word)
    ensures forall b :: 0 <= b < 64 ==> w[b]
  {
    seq(64, _ => true)
  }

  /** The lowest set bit: `ffsl(w) - 1`, or a count of trailing zeros. */
  function LowBit(w: Word): (b: nat)
    requires w != Zeros()
    ensures b < 64 && w[b] && forall j :: 0 <= j < b ==> !w[j]
  {
    NonZero(w);
    LowFrom(w, 0)
  }

  lemma NonZero(w: Word)
    ensures w != Zeros() <==> exists b :: 0 <= b < 64 && w[b]
  {
  }

  function LowFrom(w: Word, k: nat): (b: nat)
    requires k <= 64 && exists j :: k <= j < 64 && w[j]
    ensures k <= b < 64 && w[b] && forall j :: k <= j < b ==> !w[j]
    decreases 64 - k
  {
    if w[k] then k else LowFrom(w, k + 1)
  }

  /** The positions whose bit is set. */
  ghost function Marked(words: seq<Word>): set<nat> {
    set i | 0 <= i < 64 * |words| && words[i / 64][i % 64]
  }

  ghost function Below(n: nat): set<nat> {
    if n == 0 then {} else Below(n - 1) + {n - 1}
  }

  lemma {:induction false} BelowIs(n: nat)
    ensures |Below(n)| == n && forall i :: i in Below(n) <==> 0 <= i < n
  {
    if n == 0 {
    } else {
      BelowIs(n - 1);
    }
  }

  lemma {:induction false} Smaller(a: set<nat>, b: set<nat>)
    requires a <= b
    ensures |a| <= |b|
  {
    if a == {} {
    } else {
      var x :| x in a;
      Smaller(a - {x}, b - {x});
    }
  }

  /** Changing one bit of one word changes one member of the marked set. */
  lemma BitWrite(words: seq<Word>, i: nat, v: bool)
    requires i < 64 * |words|
    ensures Marked(words[i / 64 := words[i / 64][i % 64 := v]])
         == if v then Marked(words) + {i} else Marked(words) - {i}
  {
  }

  lemma AllOnes(words: seq<Word>)
    requires forall k :: 0 <= k < |words| ==> words[k] == Ones()
    ensures Marked(words) == Below(64 * |words|)
  {
    BelowIs(64 * |words|);
  }

  // -------------------------------------------------------------- the index allocator of udma_u_db.c

  method InitBitmap(bitmap: array<Word>)
    modifies bitmap
    ensures Marked(bitmap[..]) == Below(64 * bitmap.Length)
  {
    for i := 0 to bitmap.Length
      invariant forall k :: 0 <= k < i ==> bitmap[k] == Ones()
    {
      bitmap[i] := Ones();
    }
    AllOnes(bitmap[..]);
  }

  /** Takes the least free index below `nBits`.  It fails exactly when there is none. */
  method UseIdx(bitmap: array<Word>, nBits: nat) returns (ok: bool, idx: nat)
    modifies bitmap
    ensures ok <==> exists i :: i in Marked(old(bitmap[..])) && i < nBits
    ensures ok ==> idx < nBits && idx in Marked(old(bitmap[..]))
    ensures ok ==> forall i :: i in Marked(old(bitmap[..])) ==> idx <= i
    ensures ok ==> Marked(bitmap[..]) == Marked(old(bitmap[..])) - {idx}
    ensures !ok ==> bitmap[..] == old(bitmap[..])
  {
    ghost var words := bitmap[..];
    var i := 0;
    while i < bitmap.Length && bitmap[i] == Zeros()
      invariant i <= bitmap.Length && bitmap[..] == words
      invariant forall k :: 0 <= k < i ==> words[k] == Zeros()
    {
      i := i + 1;
    }
    if i == bitmap.Length {
      return false, 0;
    }
    var bit := LowBit(bitmap[i]);
    idx := i * 64 + bit;
    LeastMarked(words, i, bit);
    if idx >= nBits {
      return false, idx;
    }
    BitWrite(words, idx, false);
    bitmap[i] := bitmap[i][bit := false];
    assert bitmap[..] == words[i := words[i][bit := false]];
    ok := true;
  }

  lemma LeastMarked(words: seq<Word>, i: nat, bit: nat)
    requires i < |words| && bit < 64 && words[i][bit]
    requires forall k :: 0 <= k < i ==> words[k] == Zeros()
    requires forall j :: 0 <= j < bit ==> !words[i][j]
    ensures (i * 64 + bit) / 64 == i && (i * 64 + bit) % 64 == bit
    ensures i * 64 + bit in Marked(words)
    ensures forall j :: j in Marked(words) ==> i * 64 + bit <= j
  {
  }

  /** Gives an index back; an index beyond the last word is ignored. */
  method FreeIdx(bitmap: array<Word>, idx: nat)
    modifies bitmap
    ensures Marked(bitmap[..])
         == Marked(old(bitmap[..])) + if idx < 64 * bitmap.Length then {idx} else {}
  {
    var num := idx / 64;
    if num >= bitmap.Length {
      return;
    }
    var bit := idx % 64;
    ghost var words := bitmap[..];
    BitWrite(words, idx, true);
    bitmap[num] := bitmap[num][bit := true];
    assert bitmap[..] == words[num := words[num][bit := true]];
  }
}

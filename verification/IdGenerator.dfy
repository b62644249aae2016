/** Identifiers handed out from a bitmap: lowest free, or cyclic. */
module IdGenerator {
  import opened Words
  import opened BitWords
  import opened BitmapScan

  const SIGN: nat := 0x8000_0000

  class IdGenerator {
    const total: nat
    const bitmap: array<Word>
    var cur: nat

    ghost predicate Valid()
      reads this, bitmap
    {
      0 < total < M32 && 64 * bitmap.Length == WholeBits(total) && cur < total
    }

    /** The identifiers in use. */
    ghost function Taken(): set<nat>
      reads bitmap
    {
      set i | i in Marked(bitmap[..]) && i < total
    }

    ghost predicate AllTaken(from: nat)
      reads bitmap
    {
      forall i :: from <= i < total ==> i in Taken()
    }

    constructor (total: nat)
      requires 0 < total < M32
      ensures Valid() && fresh(bitmap) && this.total == total && Taken() == {} && cur == 0
    {
      this.total, cur := total, 0;
      bitmap := new Word[(total + 63) / 64](_ => Zeros());
    }

    /** The first free identifier from `from` on. */
    method NextFree(from: nat) returns (bit: nat)
      requires Valid() && from < total
      ensures bit < total <==> !AllTaken(from)
      ensures bit < total ==> from <= bit && bit !in Taken() && forall i :: from <= i < bit ==> i in Taken()
    {
      bit := FindNextBit(bitmap[..], total, from, false);
      NextBitInRange(bitmap[..], false, total, from);
      ScanIsFirst(bitmap[..], false, from, total);
      hide NextBit;
      hide LinearScan;
      hide WholeBits;
      if bit >= total {
        AllMarked(from, total);
      } else {
        AllMarked(from, bit);
        assert !BitAt(bitmap[..], bit);
        assert bit !in Taken();
      }
    }

    lemma AllMarked(a: nat, b: nat)
      requires Valid() && b <= total && NoHit(bitmap[..], false, a, b)
      ensures forall i :: a <= i < b ==> i in Taken()
    {
      forall i | a <= i < b
        ensures i in Taken()
      {
        assert BitAt(bitmap[..], i);
      }
    }

    /** Sets or clears one bit, `urpc_bitmap_set`. */
    method SetBit(i: nat, v: bool)
      requires Valid() && i < total
      modifies bitmap
      ensures Taken() == if v then old(Taken()) + {i} else old(Taken()) - {i}
    {
      BitWrite(bitmap[..], i, v);
      ghost var words := bitmap[..];
      bitmap[i / 64] := bitmap[i / 64][i % 64 := v];
      assert bitmap[..] == words[i / 64 := words[i / 64][i % 64 := v]];
    }

    /** A `min` with its top bit set is refused. */
    method Alloc(min: u32) returns (id: Option<nat>)
      requires Valid()
      modifies this`cur, bitmap
      ensures Valid()
      ensures id.None? <==> min >= SIGN || old(AllTaken(min % total))
      ensures id.None? ==> Taken() == old(Taken()) && cur == old(cur)
      ensures id.Some? ==> id.value !in old(Taken()) && Taken() == old(Taken()) + {id.value} && id.value < total
      ensures id.Some? ==> cur == id.value
      ensures id.Some? ==> min % total <= id.value && forall i :: min % total <= i < id.value ==> i in old(Taken())
    {
      if min >= SIGN {
        return None;
      }
      var bit := NextFree(min % total);
      if bit >= total {
        return None;
      }
      cur := bit;
      SetBit(bit, true);
      id := Some(bit);
    }

    /** Searches from the last identifier handed out, then again from the minimum.  It fails exactly when
        every identifier from the minimum on is taken. */
    method AllocAutoInc(min: u32) returns (id: Option<nat>)
      requires Valid()
      modifies this`cur, bitmap
      ensures Valid()
      ensures id.None? <==> min >= SIGN || old(AllTaken(min % total))
      ensures id.None? ==> Taken() == old(Taken()) && cur == if min >= SIGN then old(cur) else min % total
      ensures id.Some? ==> id.value !in old(Taken()) && Taken() == old(Taken()) + {id.value} && id.value < total
      ensures id.Some? ==> min % total <= id.value && cur == id.value
      ensures id.Some? ==>
        var start := if old(cur) > min % total && !old(AllTaken(cur)) then old(cur) else min % total;
        start <= id.value && forall i :: start <= i < id.value ==> i in old(Taken())
    {
      if min >= SIGN {
        return None;
      }
      var minBit := min % total;
      var bit := NextFree(if minBit < cur then cur else minBit);
      if bit >= total {
        cur := minBit;
        bit := NextFree(cur);
        if bit >= total {
          return None;
        }
      }
      cur := bit;
      SetBit(bit, true);
      id := Some(bit);
    }

    method Free(id: nat)
      requires Valid() && id < total
      modifies bitmap
      ensures Valid() && Taken() == old(Taken()) - {id}
    {
      SetBit(id, false);
    }
  }
}

/** One page of software doorbell records, of which the first is at address `base`. */
module DoorbellPage {
  import opened BitWords

  class DoorbellPage {
    const base: nat
    const numDb: nat
    const bitmap: array<Word>
    var useCnt: nat

    /** The records in use. */
    ghost function InUse(): set<nat>
      reads bitmap
    {
      Below(numDb) - Marked(bitmap[..])
    }

    /** The count is the number of taken bits. */
    ghost predicate Valid()
      reads this, bitmap
    {
      numDb <= 64 * bitmap.Length && useCnt == |InUse()|
    }

    constructor (base: nat, numDb: nat)
      ensures Valid() && fresh(bitmap) && this.base == base && this.numDb == numDb && InUse() == {}
    {
      this.base, this.numDb := base, numDb;
      bitmap := new Word[(numDb + 63) / 64](_ => Ones());
      useCnt := 0;
      new;
      AllOnes(bitmap[..]);
      BelowIs(numDb);
      BelowIs(64 * bitmap.Length);
    }

    lemma CountBound()
      requires Valid()
      ensures useCnt <= numDb && forall i :: i in InUse() ==> i < numDb
    {
      BelowIs(numDb);
      Smaller(InUse(), Below(numDb));
    }

    lemma RoomMeansFree()
      requires Valid() && useCnt < numDb
      ensures exists i :: i in Marked(bitmap[..]) && i < numDb
    {
      BelowIs(numDb);
      assert InUse() <= Below(numDb) && InUse() != Below(numDb);
      var i :| i in Below(numDb) && i !in InUse();
      assert i in Marked(bitmap[..]);
    }

    /** The index search cannot fail once the page has room, although its result is not looked at. */
    method Take() returns (npos: nat)
      requires Valid() && useCnt < numDb
      modifies this`useCnt, bitmap
      ensures Valid() && npos < numDb && npos !in old(InUse()) && InUse() == old(InUse()) + {npos} && useCnt > 0
    {
      RoomMeansFree();
      BelowIs(numDb);
      ghost var before := InUse();
      var _, idx := UseIdx(bitmap, numDb);
      npos := idx;
      assert InUse() == before + {npos};
      useCnt := useCnt + 1;
    }

    /** True if the page is unused afterwards; it is then released with its bitmap. */
    method Return(npos: nat) returns (unused: bool)
      requires Valid() && npos in InUse()
      modifies this`useCnt, bitmap
      ensures unused <==> old(InUse()) == {npos}
      ensures !unused ==> Valid() && InUse() == old(InUse()) - {npos} && useCnt > 0
    {
      BelowIs(numDb);
      ghost var before := InUse();
      assert before == (before - {npos}) + {npos};
      useCnt := useCnt - 1;
      if useCnt == 0 {
        return true;
      }
      FreeIdx(bitmap, npos);
      assert InUse() == before - {npos};
      unused := false;
    }
  }
}

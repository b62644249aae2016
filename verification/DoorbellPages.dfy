/** The list of doorbell pages: allocation from the first page with room, release by address. */
module DoorbellPages {
  import opened Words
  import opened DoorbellPage

  /** The records fit their page. */
  predicate Fits(numDb: nat, dbSize: nat, pageSize: nat) { 0 < dbSize && 0 < numDb && numDb * dbSize <= pageSize }

  predicate PageAligned(base: nat, pageSize: nat)
    requires pageSize > 0
  {
    base % pageSize == 0
  }

  /** `db & ~(page_size - 1)`. */
  function PageStart(db: nat, pageSize: nat): nat
    requires pageSize > 0
  {
    db - db % pageSize
  }

  function Position(off: int, dbSize: nat): int
    requires dbSize > 0
  {
    off / dbSize
  }

  /** The address of record `npos` of the page at `base`. */
  function Address(base: nat, npos: nat, dbSize: nat): nat { base + npos * dbSize }

  /** An address leads back to its page and record. */
  lemma AddressParts(base: nat, npos: nat, dbSize: nat, numDb: nat, pageSize: nat)
    requires pageSize > 0 && npos < numDb && Fits(numDb, dbSize, pageSize) && PageAligned(base, pageSize)
    ensures var a := Address(base, npos, dbSize); PageStart(a, pageSize) == base && Position(a - base, dbSize) == npos
  {
    RecordInside(npos, dbSize, numDb);
    PageOf(base, npos * dbSize, pageSize);
    DivModUnique(npos * dbSize, npos, 0, dbSize);
  }

  lemma RecordInside(npos: nat, dbSize: nat, numDb: nat)
    requires npos < numDb
    ensures npos * dbSize + dbSize <= numDb * dbSize
  {
    if dbSize > 0 {
      MultipleBound(numDb - npos, dbSize);
      assert (numDb - npos) * dbSize == numDb * dbSize - npos * dbSize;
    }
  }

  lemma PageOf(base: nat, off: nat, pageSize: nat)
    requires off < pageSize && base % pageSize == 0
    ensures (base + off) - (base + off) % pageSize == base
  {
    DivModUnique(base + off, base / pageSize, off, pageSize);
  }

  // -------------------------------------------------------------- records in use

  /** The records in use, as page addresses and positions; `uses[i]` are those of the page at `bases[i]`. */
  ghost function LiveOf(bases: seq<nat>, uses: seq<set<nat>>): set<(nat, nat)>
    requires |bases| == |uses|
  {
    set i, n | 0 <= i < |bases| && n in uses[i] :: (bases[i], n)
  }

  lemma LiveTake(bases: seq<nat>, uses: seq<set<nat>>, k: nat, n: nat)
    requires |bases| == |uses| && k < |bases| && n !in uses[k] && NoDup(bases)
    ensures (bases[k], n) !in LiveOf(bases, uses)
    ensures LiveOf(bases, uses[k := uses[k] + {n}]) == LiveOf(bases, uses) + {(bases[k], n)}
  {
    var uses' := uses[k := uses[k] + {n}];
    assert n in uses'[k];
    forall x | x in LiveOf(bases, uses)
      ensures x in LiveOf(bases, uses')
    {
      var i, m :| 0 <= i < |bases| && m in uses[i] && x == (bases[i], m);
      assert m in uses'[i];
    }
  }

  lemma LiveReturn(bases: seq<nat>, uses: seq<set<nat>>, k: nat, n: nat)
    requires |bases| == |uses| && k < |bases| && n in uses[k] && NoDup(bases)
    ensures LiveOf(bases, uses[k := uses[k] - {n}]) == LiveOf(bases, uses) - {(bases[k], n)}
  {
    var uses' := uses[k := uses[k] - {n}];
    forall x | x in LiveOf(bases, uses) && x != (bases[k], n)
      ensures x in LiveOf(bases, uses')
    {
      var i, m :| 0 <= i < |bases| && m in uses[i] && x == (bases[i], m);
      assert m in uses'[i];
    }
  }

  /** A page without records in use does not matter. */
  lemma LiveDrop(bases: seq<nat>, uses: seq<set<nat>>, k: nat)
    requires |bases| == |uses| && k < |bases| && uses[k] == {}
    ensures LiveOf(bases[..k] + bases[k + 1..], uses[..k] + uses[k + 1..]) == LiveOf(bases, uses)
  {
    var bases', uses' := bases[..k] + bases[k + 1..], uses[..k] + uses[k + 1..];
    forall x | x in LiveOf(bases, uses)
      ensures x in LiveOf(bases', uses')
    {
      var i, m :| 0 <= i < |bases| && m in uses[i] && x == (bases[i], m);
      var j := if i < k then i else i - 1;
      assert m in uses'[j] && bases'[j] == bases[i];
    }
    forall x | x in LiveOf(bases', uses')
      ensures x in LiveOf(bases, uses)
    {
      var j, m :| 0 <= j < |bases'| && m in uses'[j] && x == (bases'[j], m);
      var i := if j < k then j else j + 1;
      assert m in uses[i] && bases'[j] == bases[i];
    }
  }

  lemma LiveCons(base: nat, bases: seq<nat>, uses: seq<set<nat>>)
    requires |bases| == |uses|
    ensures LiveOf([base] + bases, [{}] + uses) == LiveOf(bases, uses)
  {
    LiveDrop([base] + bases, [{}] + uses, 0);
    hide LiveOf;
    assert ([base] + bases)[..0] + ([base] + bases)[1..] == bases;
    assert ([{}] + uses)[..0] + ([{}] + uses)[1..] == uses;
  }

  ghost function BitmapsOf(pages: seq<DoorbellPage>): set<object> {
    set p | p in pages :: p.bitmap
  }

  ghost function BasesOf(pages: seq<DoorbellPage>): (r: seq<nat>)
    ensures |r| == |pages| && forall i :: 0 <= i < |r| ==> r[i] == pages[i].base
  {
    seq(|pages|, i requires 0 <= i < |pages| => pages[i].base)
  }

  ghost function UsesOf(pages: seq<DoorbellPage>): (r: seq<set<nat>>)
    reads BitmapsOf(pages)
    ensures |r| == |pages| && forall i :: 0 <= i < |r| ==> r[i] == pages[i].InUse()
  {
    seq(|pages|, i requires 0 <= i < |pages| reads BitmapsOf(pages) => pages[i].InUse())
  }

  /** Different pages at different aligned addresses, with bitmaps of their own. */
  ghost predicate ListedOf(pages: seq<DoorbellPage>, numDb: nat, pageSize: nat)
    requires pageSize > 0
  {
    && NoDup(BasesOf(pages)) && (forall i, j :: 0 <= i < j < |pages| ==> pages[i].bitmap != pages[j].bitmap)
    && (forall i :: 0 <= i < |pages| ==> pages[i].numDb == numDb && PageAligned(pages[i].base, pageSize))
  }

  lemma ListedCons(page: DoorbellPage, pages: seq<DoorbellPage>, numDb: nat, pageSize: nat)
    requires pageSize > 0 && ListedOf(pages, numDb, pageSize)
    requires page.numDb == numDb && PageAligned(page.base, pageSize)
    requires forall i :: 0 <= i < |pages| ==> pages[i].base != page.base && pages[i].bitmap != page.bitmap
    ensures ListedOf([page] + pages, numDb, pageSize)
  {
    hide PageAligned;
    assert BasesOf([page] + pages) == [page.base] + BasesOf(pages);
    NoDupAppend([page.base], BasesOf(pages));
  }

  lemma OnePage(pages: seq<DoorbellPage>, i: nat, k: nat, numDb: nat, pageSize: nat)
    requires pageSize > 0 && ListedOf(pages, numDb, pageSize) && i < |pages| && k < |pages|
    ensures PageAligned(pages[i].base, pageSize) && pages[i].numDb == numDb
    ensures pages[i].base == pages[k].base ==> i == k
  {
    hide PageAligned;
    assert BasesOf(pages)[i] == pages[i].base && BasesOf(pages)[k] == pages[k].base;
  }

  lemma ListedDrop(pages: seq<DoorbellPage>, k: nat, numDb: nat, pageSize: nat)
    requires pageSize > 0 && ListedOf(pages, numDb, pageSize) && k < |pages|
    ensures ListedOf(pages[..k] + pages[k + 1..], numDb, pageSize)
    ensures BasesOf(pages[..k] + pages[k + 1..]) == BasesOf(pages)[..k] + BasesOf(pages)[k + 1..]
  {
    hide PageAligned;
    var bases := BasesOf(pages);
    assert BasesOf(pages[..k] + pages[k + 1..]) == bases[..k] + bases[k + 1..];
    NoDupWithout(bases, k);
    hide NoDup;
  }

  class DoorbellPages {
    const pageSize: nat
    const dbSize: nat
    const numDb: nat
    var pages: seq<DoorbellPage>
    var records: map<nat, u32>  // the doorbell records, by address

    ghost function Bitmaps(): set<object>
      reads this`pages
    {
      BitmapsOf(pages)
    }

    ghost function Live(): set<(nat, nat)>
      reads this`pages, Bitmaps()
    {
      LiveOf(BasesOf(pages), UsesOf(pages))
    }

    ghost predicate Listed()
      reads this`pages
    {
      && Fits(numDb, dbSize, pageSize) && 0 < dbSize && 0 < numDb && 0 < pageSize
      && ListedOf(pages, numDb, pageSize)
    }

    /** Every page is in order; all but page `k` have records in use. */
    ghost predicate SoundBut(k: int)
      reads this`pages, pages, Bitmaps()
    {
      Listed() && forall i :: 0 <= i < |pages| ==> pages[i].Valid() && (i != k ==> pages[i].useCnt > 0)
    }

    ghost predicate Valid()
      reads this`pages, pages, Bitmaps()
    {
      SoundBut(-1)
    }

    constructor (pageSize: nat, dbSize: nat, numDb: nat)
      requires pageSize > 0 && Fits(numDb, dbSize, pageSize)
      ensures Valid() && pages == [] && Live() == {}
      ensures this.pageSize == pageSize && this.dbSize == dbSize && this.numDb == numDb
    {
      this.pageSize, this.dbSize, this.numDb := pageSize, dbSize, numDb;
      pages, records := [], map[];
    }

    // -------------------------------------------------------------- allocation

    method AddPage(base: nat)
      requires Valid() && PageAligned(base, pageSize) && forall i :: 0 <= i < |pages| ==> pages[i].base != base
      modifies this`pages
      ensures SoundBut(0) && |pages| > 0 && pages[1..] == old(pages) && fresh(pages[0]) && fresh(pages[0].bitmap)
      ensures pages[0].base == base && pages[0].useCnt == 0 && Live() == old(Live())
    {
      hide Fits;
      hide PageAligned;
      hide PageStart;
      hide Position;
      hide Address;
      hide LiveOf;
      hide DoorbellPage.InUse;
      ghost var bases, uses := BasesOf(pages), UsesOf(pages);
      var page := new DoorbellPage(base, numDb);
      ListedCons(page, pages, numDb, pageSize);
      hide ListedOf;
      pages := [page] + pages;
      assert BasesOf(pages) == [base] + bases && UsesOf(pages) == [{}] + uses;
      LiveCons(base, bases, uses);
    }

    /** Takes a record of page `i` and clears it. */
    method TakeAt(i: nat) returns (npos: nat)
      requires SoundBut(i) && i < |pages| && pages[i].useCnt < numDb
      modifies this`records, pages[i], pages[i].bitmap
      ensures records == old(records)[Address(pages[i].base, npos, dbSize) := 0]
      ensures Valid() && npos < numDb && (pages[i].base, npos) !in old(Live())
      ensures Live() == old(Live()) + {(pages[i].base, npos)}
    {
      hide Fits;
      hide PageAligned;
      hide PageStart;
      hide Position;
      hide Address;
      hide LiveOf;
      hide DoorbellPage.InUse;
      ghost var bases, uses := BasesOf(pages), UsesOf(pages);
      npos := pages[i].Take();
      records := records[Address(pages[i].base, npos, dbSize) := 0];
      LiveTake(bases, uses, i, npos);
      assert BasesOf(pages) == bases && UsesOf(pages) == uses[i := uses[i] + {npos}];
    }

    /** `udma_u_alloc_sw_db`: a record on the first page with room, or on a new page at `granted`.  It fails
        exactly when all pages are full and no page is granted. */
    method Alloc(granted: Option<nat>) returns (db: Option<nat>, ghost at: (nat, nat))
      requires Valid()
      requires granted.Some? ==>
        PageAligned(granted.value, pageSize) && forall i :: 0 <= i < |pages| ==> pages[i].base != granted.value
      modifies this, pages, Bitmaps()
      ensures Valid()
      ensures db.None? <==> granted.None? && forall p :: p in old(pages) ==> old(p.useCnt) == numDb
      ensures db.None? ==> pages == old(pages) && Live() == old(Live()) && records == old(records)
      ensures db.Some? ==> at !in old(Live()) && Live() == old(Live()) + {at} && at.1 < numDb
      ensures db.Some? ==> db.value == Address(at.0, at.1, dbSize) && records == old(records)[db.value := 0]
    {
      hide Fits;
      hide PageAligned;
      hide PageStart;
      hide Position;
      hide Address;
      hide LiveOf;
      hide DoorbellPage.InUse;
      hide ListedOf;
      hide UsesOf;
      hide BasesOf;
      at := (0, 0);
      FullPages();
      var i := 0;
      while i < |pages| && pages[i].useCnt >= numDb
        modifies {}
        invariant 0 <= i <= |pages| && forall j :: 0 <= j < i ==> pages[j].useCnt == numDb
      {
        i := i + 1;
      }
      if i == |pages| {
        if granted.None? {
          return None, at;
        }
        AddPage(granted.value);
        i := 0;
      }
      var npos := TakeAt(i);
      at := (pages[i].base, npos);
      db := Some(Address(pages[i].base, npos, dbSize));
    }

    lemma FullPages()
      requires Valid()
      ensures forall i :: 0 <= i < |pages| ==> pages[i].useCnt <= numDb
    {
      forall i | 0 <= i < |pages|
        ensures pages[i].useCnt <= numDb
      {
        pages[i].CountBound();
      }
    }

    // -------------------------------------------------------------- release

    /** The record that an address on page `k` stands for. */
    lemma LiveAt(k: nat, at: (nat, nat), db: nat)
      requires Valid() && k < |pages| && at in Live() && db == Address(at.0, at.1, dbSize)
      requires pages[k].base == PageStart(db, pageSize)
      ensures at.0 == pages[k].base && Position(db - pages[k].base, dbSize) == at.1 && at.1 in pages[k].InUse()
    {
      hide Fits;
      hide PageAligned;
      hide PageStart;
      hide Position;
      hide Address;
      hide ListedOf;
      hide NoDup;
      hide DoorbellPage.InUse;
      var i, npos :| 0 <= i < |pages| && npos in UsesOf(pages)[i] && at == (BasesOf(pages)[i], npos);
      hide LiveOf;
      OnePage(pages, i, k, numDb, pageSize);
      pages[i].CountBound();
      AddressParts(pages[i].base, npos, dbSize, numDb, pageSize);
    }

    method ReturnAt(k: nat, npos: nat)
      requires Valid() && k < |pages| && npos in pages[k].InUse()
      modifies this`pages, pages[k], pages[k].bitmap
      ensures Valid() && Live() == old(Live()) - {(old(pages)[k].base, npos)}
    {
      hide Fits;
      hide PageAligned;
      hide PageStart;
      hide Position;
      hide Address;
      hide LiveOf;
      hide DoorbellPage.InUse;
      ghost var bases, uses := BasesOf(pages), UsesOf(pages);
      LiveReturn(bases, uses, k, npos);
      ghost var rest := uses[k] - {npos};
      var unused := pages[k].Return(npos);
      if unused {
        DropAt(k, bases, uses);
        LiveDrop(bases, uses[k := {}], k);
        assert rest == {};
      } else {
        assert BasesOf(pages) == bases && UsesOf(pages) == uses[k := rest];
      }
    }

    /** Unlinks page `k`, whose records are all free. */
    method DropAt(k: nat, ghost bases: seq<nat>, ghost uses: seq<set<nat>>)
      requires k < |pages| && Listed() && bases == BasesOf(pages) && |uses| == |pages|
      requires forall i :: 0 <= i < |pages| && i != k ==>
        pages[i].Valid() && pages[i].useCnt > 0 && pages[i].InUse() == uses[i]
      modifies this`pages
      ensures Valid()
      ensures BasesOf(pages) == bases[..k] + bases[k + 1..] && UsesOf(pages) == uses[..k] + uses[k + 1..]
    {
      hide Fits;
      hide PageAligned;
      hide PageStart;
      hide Position;
      hide Address;
      hide LiveOf;
      hide DoorbellPage.InUse;
      ListedDrop(pages, k, numDb, pageSize);
      hide ListedOf;
      pages := pages[..k] + pages[k + 1..];
    }

    /** `udma_u_free_sw_db`: the page is found from the address.  It is dropped exactly with its last record;
        an address on no page is ignored. */
    method Free(db: nat, ghost at: (nat, nat))
      requires Valid()
      requires PageStart(db, pageSize) in BasesOf(pages) ==> at in Live() && db == Address(at.0, at.1, dbSize)
      modifies this`pages, pages, Bitmaps()
      ensures Valid()
      ensures if PageStart(db, pageSize) in BasesOf(old(pages)) then Live() == old(Live()) - {at}
              else Live() == old(Live()) && pages == old(pages)
    {
      hide Fits;
      hide PageAligned;
      hide PageStart;
      hide Position;
      hide Address;
      hide LiveOf;
      hide DoorbellPage.InUse;
      var base, k := PageStart(db, pageSize), 0;
      while k < |pages| && pages[k].base != base
        modifies {}
        invariant 0 <= k <= |pages| && forall j :: 0 <= j < k ==> pages[j].base != base
      {
        k := k + 1;
      }
      if k == |pages| {
        return;
      }
      assert BasesOf(pages)[k] == base;
      LiveAt(k, at, db);
      ReturnAt(k, Position(db - base, dbSize));
    }
  }

  lemma NoDupWithout(s: seq<nat>, k: nat)
    requires NoDup(s) && k < |s|
    ensures NoDup(s[..k] + s[k + 1..])
  {
  }
}

/** Queue buffers carved from huge-page mappings: bump allocation, reference counts, release.

    A mapping is known by its base address, which the buffers keep. */
module HugePages {
  import opened Words

  const HUGEPAGE: nat := 2097152

  /** `off` bytes are handed out and `left` are not. */
  datatype Mapping = Mapping(len: nat, off: nat, left: nat, refcnt: nat)

  datatype Chunk = Chunk(base: nat, start: nat, len: nat)

  type Maps = map<nat, Mapping>

  predicate Disjoint(a: nat, aLen: nat, b: nat, bLen: nat) { a + aLen <= b || b + bLen <= a }

  ghost function Of(live: set<Chunk>, base: nat): set<Chunk> {
    set c | c in live && c.base == base
  }

  /** The mappings do not overlap and their counters agree. */
  ghost predicate MapsOk(maps: Maps) {
    && (forall b :: b in maps ==> maps[b].off + maps[b].left == maps[b].len)
    && (forall a, b :: a in maps && b in maps && a != b ==> Disjoint(a, maps[a].len, b, maps[b].len))
  }

  /** A mapping counts its live buffers, and has at least one. */
  ghost predicate RefsOk(maps: Maps, live: set<Chunk>) {
    forall b :: b in maps ==> 0 < maps[b].refcnt == |Of(live, b)|
  }

  /** A live buffer lies in the handed-out part of its mapping. */
  ghost predicate InsideOk(maps: Maps, live: set<Chunk>) {
    forall c :: c in live ==>
      c.base in maps && 0 < c.len && c.base <= c.start && c.start + c.len <= c.base + maps[c.base].off
  }

  ghost predicate ApartOk(live: set<Chunk>) {
    forall c, d :: c in live && d in live && c != d ==> Disjoint(c.start, c.len, d.start, d.len)
  }

  ghost predicate Inv(maps: Maps, live: set<Chunk>) {
    MapsOk(maps) && RefsOk(maps, live) && InsideOk(maps, live) && ApartOk(live)
  }

  /** What the kernel promises of a new mapping. */
  ghost predicate NewMapping(maps: Maps, base: nat, len: nat) {
    len > 0 && base !in maps && forall b :: b in maps ==> Disjoint(base, len, b, maps[b].len)
  }

  function RoundUp(len: nat): nat { (len + HUGEPAGE - 1) / HUGEPAGE * HUGEPAGE }

  function Bump(m: Mapping, len: nat): Mapping
    requires len <= m.left
  {
    m.(off := m.off + len, left := m.left - len, refcnt := m.refcnt + 1)
  }

  /** A new buffer behind all others of its mapping meets no live one. */
  lemma BumpApart(maps: Maps, live: set<Chunk>, base: nat, len: nat)
    requires MapsOk(maps) && InsideOk(maps, live) && ApartOk(live)
    requires base in maps && 0 < len <= maps[base].left
    ensures var c := Chunk(base, base + maps[base].off, len); c !in live && ApartOk(live + {c})
  {
  }

  lemma RefsAdd(maps: Maps, live: set<Chunk>, c: Chunk, m: Mapping)
    requires RefsOk(maps, live) && c !in live
    requires m.refcnt == 1 + |Of(live, c.base)|
    ensures RefsOk(maps[c.base := m], live + {c})
  {
    forall b | b in maps[c.base := m]
      ensures 0 < maps[c.base := m][b].refcnt == |Of(live + {c}, b)|
    {
      if b == c.base {
        assert Of(live + {c}, b) == Of(live, b) + {c};
      } else {
        assert Of(live + {c}, b) == Of(live, b);
      }
    }
  }

  lemma BumpOk(maps: Maps, live: set<Chunk>, base: nat, len: nat)
    requires Inv(maps, live) && base in maps && 0 < len <= maps[base].left
    ensures var c := Chunk(base, base + maps[base].off, len);
      c !in live && Inv(maps[base := Bump(maps[base], len)], live + {c})
  {
    var c := Chunk(base, base + maps[base].off, len);
    BumpApart(maps, live, base, len);
    hide ApartOk;
    CountedOf(maps, live, base);
    RefsAdd(maps, live, c, Bump(maps[base], len));
    hide RefsOk;
    BumpInside(maps, live, base, len);
    hide MapsOk;
    hide InsideOk;
  }

  lemma CountedOf(maps: Maps, live: set<Chunk>, base: nat)
    requires RefsOk(maps, live) && base in maps
    ensures maps[base].refcnt == |Of(live, base)|
  {
  }

  lemma BumpInside(maps: Maps, live: set<Chunk>, base: nat, len: nat)
    requires MapsOk(maps) && InsideOk(maps, live) && base in maps && 0 < len <= maps[base].left
    ensures MapsOk(maps[base := Bump(maps[base], len)])
    ensures InsideOk(maps[base := Bump(maps[base], len)], live + {Chunk(base, base + maps[base].off, len)})
  {
  }

  /** A fresh mapping with its first buffer. */
  lemma MapOk(maps: Maps, live: set<Chunk>, base: nat, vaLen: nat, len: nat)
    requires Inv(maps, live) && NewMapping(maps, base, vaLen) && 0 < len <= vaLen
    ensures var c := Chunk(base, base, len);
      c !in live && Inv(maps[base := Mapping(vaLen, len, vaLen - len, 1)], live + {c})
  {
    hide ApartOk;
    hide RefsOk;
    hide MapsOk;
    hide InsideOk;
    hide NewMapping;
    hide Of;
    FirstInside(maps, live, base, vaLen, len);
    RefsAdd(maps, live, Chunk(base, base, len), Mapping(vaLen, len, vaLen - len, 1));
  }

  lemma FirstInside(maps: Maps, live: set<Chunk>, base: nat, vaLen: nat, len: nat)
    requires MapsOk(maps) && InsideOk(maps, live) && ApartOk(live) && NewMapping(maps, base, vaLen) && 0 < len <= vaLen
    ensures var maps', c := maps[base := Mapping(vaLen, len, vaLen - len, 1)], Chunk(base, base, len);
      && MapsOk(maps') && InsideOk(maps', live + {c}) && ApartOk(live + {c}) && c !in live && Of(live, base) == {}
  {
    hide ApartOk;
    hide MapsOk;
    hide InsideOk;
    hide NewMapping;
    hide Of;
    var empty := Mapping(vaLen, 0, vaLen, 0);
    NewOk(maps, live, base, empty);
    BumpApart(maps[base := empty], live, base, len);
    BumpInside(maps[base := empty], live, base, len);
    assert maps[base := empty][base := Bump(empty, len)] == maps[base := Mapping(vaLen, len, vaLen - len, 1)];
  }

  lemma NewOk(maps: Maps, live: set<Chunk>, base: nat, m: Mapping)
    requires MapsOk(maps) && InsideOk(maps, live) && NewMapping(maps, base, m.len) && m.off + m.left == m.len
    ensures MapsOk(maps[base := m]) && InsideOk(maps[base := m], live) && Of(live, base) == {}
  {
  }

  /** Giving a buffer back. */
  lemma DropRefs(maps: Maps, live: set<Chunk>, c: Chunk)
    requires RefsOk(maps, live) && c in live && c.base in maps
    ensures |Of(live - {c}, c.base)| == maps[c.base].refcnt - 1
    ensures maps[c.base].refcnt == 1 <==> Of(live, c.base) == {c}
    ensures forall b :: b in maps && b != c.base ==> 0 < maps[b].refcnt == |Of(live - {c}, b)|
  {
    assert Of(live - {c}, c.base) == Of(live, c.base) - {c};
    if maps[c.base].refcnt == 1 {
      assert |Of(live, c.base) - {c}| == 0;
      assert Of(live, c.base) == (Of(live, c.base) - {c}) + {c};
    }
    forall b | b in maps && b != c.base
      ensures |Of(live - {c}, b)| == maps[b].refcnt
    {
      assert Of(live - {c}, b) == Of(live, b);
    }
  }

  lemma DropOk(maps: Maps, live: set<Chunk>, c: Chunk)
    requires Inv(maps, live) && c in live
    ensures c.base in maps
    ensures var m := maps[c.base];
      if m.refcnt > 1 then Inv(maps[c.base := m.(refcnt := m.refcnt - 1)], live - {c})
      else Inv(maps - {c.base}, live - {c})
    ensures 0 < maps[c.base].refcnt && (maps[c.base].refcnt == 1 <==> Of(live, c.base) == {c})
  {
    DropRefs(maps, live, c);
    if maps[c.base].refcnt == 1 {
      forall d | d in live - {c}
        ensures d.base != c.base
      {
        assert d.base == c.base ==> d in Of(live, c.base);
      }
    }
  }

  class HugePages {
    var order: seq<nat>
    var maps: Maps
    ghost var live: set<Chunk>

    ghost predicate Valid()
      reads this
    {
      && Inv(maps, live)
      && NoDup(order)
      && (forall b :: b in order <==> b in maps)
    }

    constructor ()
      ensures Valid() && maps == map[] && live == {}
    {
      order, maps, live := [], map[], {};
    }

    /** `granted` says whether the descriptor of the buffer can be allocated; `mapped` is where a new mapping
        would go, if the system grants one; one of length 0 (the 32-bit rounded length wrapped) is refused.
        Only the newest mapping is tried first. */
    method Alloc(len: u32, granted: bool, mapped: Option<nat>) returns (r: Option<Chunk>)
      requires Valid() && len > 0
      requires mapped.Some? ==> NewMapping(maps, mapped.value, Wrap32(RoundUp(len)))
      modifies this
      ensures Valid()
      ensures r.None? <==> !granted || (mapped.None? && (old(order) == [] || old(maps)[old(order)[0]].left < len))
      ensures r.None? ==> live == old(live) && maps == old(maps)
      ensures r.Some? ==> r.value.len == len && r.value !in old(live) && live == old(live) + {r.value}
      ensures r.Some? ==> order == if r.value.base in old(maps) then old(order) else [r.value.base] + old(order)
      ensures r.Some? && old(order) != [] && len <= old(maps)[old(order)[0]].left ==> r.value.base == old(order)[0]
    {
      hide Inv;
      if !granted {
        return None;
      }
      assert order != [] ==> order[0] in order;
      if order != [] && maps[order[0]].left >= len {
        var base := order[0];
        BumpOk(maps, live, base, len);
        var c := Chunk(base, base + maps[base].off, len);
        maps := maps[base := Bump(maps[base], len)];
        live := live + {c};
        return Some(c);
      }
      if mapped.None? {
        return None;
      }
      var base, vaLen := mapped.value, Wrap32(RoundUp(len));
      Rounded(len);
      MapOk(maps, live, base, vaLen, len);
      hide NewMapping;
      hide Wrap32;
      hide RoundUp;
      var c := Chunk(base, base, len);
      maps := maps[base := Mapping(vaLen, len, vaLen - len, 1)];
      order := [base] + order;
      live := live + {c};
      r := Some(c);
    }

    /** The mapping goes away exactly with its last live buffer. */
    method Free(c: Chunk) returns (unmapped: bool)
      requires Valid() && c in live
      modifies this
      ensures Valid() && live == old(live) - {c}
      ensures (unmapped <==> Of(old(live), c.base) == {c}) && (unmapped <==> c.base !in maps)
      ensures order == if unmapped then Unlinked(old(order), c.base) else old(order)
    {
      hide Inv;
      DropOk(maps, live, c);
      var m := maps[c.base];
      live := live - {c};
      if m.refcnt > 1 {
        maps := maps[c.base := m.(refcnt := m.refcnt - 1)];
        return false;
      }
      order := Unlinked(order, c.base);
      maps := maps - {c.base};
      unmapped := true;
    }
  }

  function Unlinked(order: seq<nat>, b: nat): (r: seq<nat>)
    requires NoDup(order)
    ensures NoDup(r)
    ensures forall x :: x in r <==> x in order && x != b
  {
    if order == [] then []
    else if order[0] == b then order[1..]
    else
      var rest := Unlinked(order[1..], b);
      assert order[0] !in order[1..] && forall j :: 0 <= j < |rest| ==> rest[j] in order[1..];
      [order[0]] + rest
  }

  lemma Rounded(len: u32)
    requires Wrap32(RoundUp(len)) > 0
    ensures len <= Wrap32(RoundUp(len))
  {
  }
}

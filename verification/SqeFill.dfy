/** Facts about filling a WQE: element lists, stored pieces, and how later writes leave earlier
    pieces alone. */
module SqeFill {
  import opened Words
  import opened SqeLayout
  import opened RingBytes

  // ---------------------------------------------------------------- facts about element lists

  lemma {:induction false} SumLenAppend(s: seq<Sge>, x: Sge)
    ensures SumLen(s + [x]) == SumLen(s) + x.len
  {
    if s == [] {
      assert s + [x] == [x];
      assert SumLen([x]) == x.len + SumLen([x][1..]);
    } else {
      SumLenAppend(s[1..], x);
      assert (s + [x])[1..] == s[1..] + [x];
    }
  }

  lemma {:induction false} SumLenPrefix(s: seq<Sge>, i: nat)
    requires i < |s|
    ensures SumLen(s[..i + 1]) == SumLen(s[..i]) + s[i].len
    ensures SumLen(s[..i + 1]) <= SumLen(s)
    decreases |s| - i
  {
    assert s[..i + 1] == s[..i] + [s[i]];
    SumLenAppend(s[..i], s[i]);
    if i + 1 < |s| {
      SumLenPrefix(s, i + 1);
    } else {
      assert s[..i + 1] == s;
    }
  }

  ghost predicate DataMatches(s: seq<Sge>) {
    forall i :: 0 <= i < |s| ==> |s[i].data| == s[i].len
  }

  lemma {:induction false} PayloadAppend(s: seq<Sge>, x: Sge)
    ensures Payload(s + [x]) == Payload(s) + x.data
  {
    if s == [] {
      assert s + [x] == [x];
      assert Payload([x]) == x.data + Payload([x][1..]);
    } else {
      PayloadAppend(s[1..], x);
      assert (s + [x])[1..] == s[1..] + [x];
    }
  }

  lemma {:induction false} PayloadLength(s: seq<Sge>)
    requires DataMatches(s)
    ensures |Payload(s)| == SumLen(s)
  {
    if s != [] {
      PayloadLength(s[1..]);
    }
  }

  lemma {:induction false} NonEmptyAppend(s: seq<Sge>, x: Sge)
    ensures NonEmpty(s + [x]) == NonEmpty(s) + if x.len == 0 then [] else [x]
  {
    if s == [] {
      assert s + [x] == [x];
      assert [x][1..] == [];
    } else {
      var more := if x.len == 0 then [] else [x];
      NonEmptyAppend(s[1..], x);
      assert (s + [x])[1..] == s[1..] + [x];
      assert [s[0]] + (NonEmpty(s[1..]) + more) == ([s[0]] + NonEmpty(s[1..])) + more;
    }
  }

  lemma NonEmptyPrefix(s: seq<Sge>, i: nat)
    requires i < |s|
    ensures NonEmpty(s[..i + 1]) == NonEmpty(s[..i]) + if s[i].len == 0 then [] else [s[i]]
  {
    assert s[..i + 1] == s[..i] + [s[i]];
    NonEmptyAppend(s[..i], s[i]);
  }

  lemma {:induction false} NonEmptyMonotonic(s: seq<Sge>, i: nat)
    requires i <= |s|
    ensures |NonEmpty(s[..i])| <= |NonEmpty(s)|
    decreases |s| - i
  {
    if i < |s| {
      NonEmptyPrefix(s, i);
      NonEmptyMonotonic(s, i + 1);
    } else {
      assert s[..i] == s;
    }
  }

  // ---------------------------------------------------------------- stored pieces and later writes

  lemma BytesAtFrom(w: seq<byte>, w': seq<byte>, lo: nat, off: nat, bytes: seq<byte>)
    requires lo <= |w| == |w'| && w'[lo..] == w[lo..] && lo <= off && BytesAt(w, off, bytes)
    ensures BytesAt(w', off, bytes)
  {
  }

  lemma BytesAtUpto(w: seq<byte>, w': seq<byte>, hi: nat, off: nat, bytes: seq<byte>)
    requires hi <= |w| == |w'| && w'[..hi] == w[..hi] && off + |bytes| <= hi && BytesAt(w, off, bytes)
    ensures BytesAt(w', off, bytes)
  {
  }

  /** The two field writes of an element. */
  function SgeSplice(w: seq<byte>, off: nat, sge: Sge): (r: seq<byte>)
    requires off + 16 <= |w|
    ensures |r| == |w|
  {
    Splice(Splice(w, off, LeBytes(sge.len, 4)), off + 8, LeBytes(sge.addr, 8))
  }

  lemma SgeSpliced(w: seq<byte>, off: nat, sge: Sge)
    requires off + 16 <= |w|
    ensures var r := SgeSplice(w, off, sge);
            SgeAt(r, off, sge) && r[..off] == w[..off] && r[off + 16..] == w[off + 16..]
  {
  }

  lemma SgesAtFrom(w: seq<byte>, w': seq<byte>, lo: nat, off: nat, sges: seq<Sge>)
    requires lo <= |w| == |w'| && w'[lo..] == w[lo..] && lo <= off && SgesAt(w, off, sges)
    ensures SgesAt(w', off, sges)
  {
  }

  lemma SgesAtSnoc(w: seq<byte>, off: nat, sges: seq<Sge>, x: Sge)
    requires SgesAt(w, off, sges) && off + 16 * |sges| + 16 <= |w|
    ensures var w' := SgeSplice(w, off + 16 * |sges|, x);
            SgesAt(w', off, sges + [x]) && w'[..off] == w[..off]
  {
    hide SgeSplice;
    hide SgeAt;
    var hi := off + 16 * |sges|;
    var w' := SgeSplice(w, hi, x);
    SgeSpliced(w, hi, x);
    forall i | 0 <= i < |sges + [x]|
      ensures SgeAt(w', off + 16 * i, (sges + [x])[i])
    {
      if i < |sges| {
        assert SgeAt(w, off + 16 * i, sges[i]);
        SgeAtUpto(w, w', hi, off + 16 * i, sges[i]);
      }
    }
    ShorterPrefix(w, w', hi, off);
  }

  lemma ShorterPrefix(w: seq<byte>, w': seq<byte>, hi: nat, lo: nat)
    requires lo <= hi <= |w| && hi <= |w'| && w'[..hi] == w[..hi]
    ensures w'[..lo] == w[..lo]
  {
  }

  lemma PayloadGrows(w: seq<byte>, ctl: nat, sges: seq<Sge>, i: nat)
    requires i < |sges| && DataMatches(sges)
    requires BytesAt(w, ctl, Payload(sges[..i]))
    requires ctl + |Payload(sges[..i])| + |sges[i].data| <= |w|
    ensures var w' := Splice(w, ctl + |Payload(sges[..i])|, sges[i].data);
            BytesAt(w', ctl, Payload(sges[..i + 1])) && w'[..ctl] == w[..ctl]
  {
    var a, b := Payload(sges[..i]), sges[i].data;
    var hi := ctl + |a|;
    var w' := Splice(w, hi, b);
    assert sges[..i + 1] == sges[..i] + [sges[i]];
    PayloadAppend(sges[..i], sges[i]);
    BytesAtUpto(w, w', hi, ctl, a);
    assert w'[ctl..hi + |b|] == w'[ctl..hi] + w'[hi..hi + |b|];
    ShorterPrefix(w, w', hi, ctl);
  }

  /** The packed id shares its word with 12 reserved bits, which keep their old value. */
  function TokenSplice(w: seq<byte>, off: nat, id: u32, value: u32): (r: seq<byte>)
    requires off + 8 <= |w|
    ensures |r| == |w|
  {
    Splice(Splice(w, off, [id % 256, id / 256 % 256, w[off + 2] / 16 * 16 + id / 0x1_0000 % 16]),
           off + 4, LeBytes(value, 4))
  }

  lemma TokenSpliced(w: seq<byte>, off: nat, id: u32, value: u32)
    requires off + 8 <= |w|
    ensures var r := TokenSplice(w, off, id, value);
            TokenAt(r, off, id, value) && r[..off] == w[..off] && r[off + 8..] == w[off + 8..]
  {
  }

  /** Rewriting the header does not touch the body. */
  lemma BodyOkFrom(w: seq<byte>, w': seq<byte>, wr: Wr)
    requires WellFormed(wr) && BodyOk(w, wr) && 48 <= |w| == |w'| && w'[48..] == w[48..]
    ensures BodyOk(w', wr)
  {
    var ctl := CtlLen(UdmaOpcode(wr.op));
    forall off: nat, bytes: seq<byte> | off >= 48 && BytesAt(w, off, bytes)
      ensures BytesAt(w', off, bytes)
    {
      BytesAtFrom(w, w', 48, off, bytes);
    }
    assert forall j :: 48 <= j < |w| ==> w'[j] == w[48..][j - 48] == w[j];
    if (IsSend(wr.op) || IsWrite(wr.op) || wr.op.OpRead?) && !CarriesInline(wr) {
      SgesAtFrom(w, w', 48, ctl, NonEmpty(wr.local));
    }
  }

  /** The header fields set before the operation is looked at. */
  function BaseHeader(wr: Wr, owner: bool): Header {
    Header(0, wr.flag % 128, false, wr.target.kind % 4, owner, 0, UdmaOpcode(wr.op), 0,
           wr.target.tpn % 0x100_0000, 0, 0, wr.target.eid, 0, 0, 0)
  }

  /** A window large enough for everything the fill of `wr` may write, also when it is refused
      half-way. */
  ghost predicate RoomFor(wr: Wr, l: Limits, n: nat) {
    && LimitsOk(l) && 64 <= n <= 256
    && CtlLen(UdmaOpcode(wr.op))
       + (if CarriesInline(wr) then Min(MaxInline(UdmaOpcode(wr.op), l.maxInline), SumLen(wr.local))
          else 16 * |NonEmpty(wr.local)|) <= n
    && (IsAtomic(wr.op) ==> 128 <= n)
  }

  /** How many blocks the fill may touch. */
  ghost function WindowBlocks(wr: Wr, l: Limits): nat {
    if InlineTooLong(wr, l) then MAX_BB else Blocks(wr)
  }

  lemma WindowHasRoom(wr: Wr, l: Limits)
    requires WellFormed(wr) && LimitsOk(l) && SgeCountOk(wr, l) && !wr.op.OpNop?
    ensures RoomFor(wr, l, 64 * WindowBlocks(wr, l))
  {
  }

  /** The payload part of BodyOk. */
  ghost predicate PayloadOk(w: seq<byte>, wr: Wr) {
    var ctl := CtlLen(UdmaOpcode(wr.op));
    if CarriesInline(wr) then BytesAt(w, ctl, Payload(wr.local)) else SgesAt(w, ctl, NonEmpty(wr.local))
  }

  lemma PayloadOkFrom(w: seq<byte>, w': seq<byte>, wr: Wr)
    requires PayloadOk(w, wr)
    requires var ctl := CtlLen(UdmaOpcode(wr.op)); ctl <= |w| == |w'| && w'[ctl..] == w[ctl..]
    ensures PayloadOk(w', wr)
  {
    var ctl := CtlLen(UdmaOpcode(wr.op));
    if CarriesInline(wr) {
      BytesAtFrom(w, w', ctl, ctl, Payload(wr.local));
    } else {
      SgesAtFrom(w, w', ctl, ctl, NonEmpty(wr.local));
    }
  }

  function ImmExtra(w: seq<byte>, wr: Wr): seq<byte>
    requires |w| >= 64
  {
    TokenSplice(Splice(w, 48, LeBytes(wr.imm, 8)), 56, wr.target.id, wr.target.tokenValue)
  }

  lemma ImmExtraOk(w: seq<byte>, wr: Wr)
    requires |w| >= 64 && WellFormed(wr) && wr.op.OpWriteImm? && PayloadOk(w, wr)
    ensures |ImmExtra(w, wr)| == |w| && BodyOk(ImmExtra(w, wr), wr)
  {
    var w1 := Splice(w, 48, LeBytes(wr.imm, 8));
    var w2 := ImmExtra(w, wr);
    TokenSpliced(w1, 56, wr.target.id, wr.target.tokenValue);
    BytesAtUpto(w1, w2, 56, 48, LeBytes(wr.imm, 8));
    assert w2[64..] == w1[64..] == w1[56..][8..] == w[64..];
    PayloadOkFrom(w, w2, wr);
  }

  function NotifyExtra(w: seq<byte>, wr: Wr): seq<byte>
    requires |w| >= 80 && |wr.remote| >= 2
  {
    var dst := wr.remote[1];
    Splice(Splice(TokenSplice(w, 48, dst.seg.tid, dst.seg.tokenValue), 56, LeBytes(dst.addr, 8)), 64, LeBytes(wr.imm, 8))
  }

  lemma NotifyExtraOk(w: seq<byte>, wr: Wr)
    requires |w| >= 80 && WellFormed(wr) && wr.op.OpWriteNotify? && PayloadOk(w, wr)
    ensures |NotifyExtra(w, wr)| == |w| && BodyOk(NotifyExtra(w, wr), wr)
  {
    var dst := wr.remote[1];
    var w1 := TokenSplice(w, 48, dst.seg.tid, dst.seg.tokenValue);
    var w2 := Splice(w1, 56, LeBytes(dst.addr, 8));
    var w3 := NotifyExtra(w, wr);
    TokenSpliced(w, 48, dst.seg.tid, dst.seg.tokenValue);
    assert w3[..56] == w3[..64][..56] == w2[..56] == w1[..56];
    TokenAtUpto(w1, w3, 48, dst.seg.tid, dst.seg.tokenValue);
    BytesAtUpto(w2, w3, 64, 56, LeBytes(dst.addr, 8));
    assert w3[80..] == w3[72..][8..] == w2[80..] == w2[64..][16..] == w1[80..] == w1[56..][24..] == w[80..];
    PayloadOkFrom(w, w3, wr);
  }

  lemma TokenAtUpto(w: seq<byte>, w': seq<byte>, off: nat, id: u32, value: u32)
    requires off + 8 <= |w| == |w'| && w'[..off + 8] == w[..off + 8] && TokenAt(w, off, id, value)
    ensures TokenAt(w', off, id, value)
  {
  }

  function AtomicBody(w: seq<byte>, wr: Wr): seq<byte>
    requires |w| >= 128 && |wr.local| == 1 && |wr.operand| == |wr.compare| == wr.local[0].len && wr.local[0].len <= 16
  {
    var w2 := Splice(SgeSplice(w, 48, wr.local[0]), 64, wr.operand);
    if wr.op.OpCas? then Splice(w2, 64 + wr.local[0].len, wr.compare) else w2
  }

  lemma AtomicBodyOk(w: seq<byte>, wr: Wr)
    requires |w| >= 128 && WellFormed(wr) && IsAtomic(wr.op) && AtomicLenOk(wr)
    ensures |AtomicBody(w, wr)| == |w| && BodyOk(AtomicBody(w, wr), wr)
  {
    var sge := wr.local[0];
    var w1 := SgeSplice(w, 48, sge);
    var w2 := Splice(w1, 64, wr.operand);
    SgeSpliced(w, 48, sge);
    SgeAtUpto(w1, w2, 64, 48, sge);
    if wr.op.OpCas? {
      var w3 := Splice(w2, 64 + sge.len, wr.compare);
      assert w3[..64] == w3[..64 + sge.len][..64] == w2[..64];
      SgeAtUpto(w2, w3, 64, 48, sge);
      BytesAtUpto(w2, w3, 64 + sge.len, 64, wr.operand);
    }
  }

  lemma SgeAtUpto(w: seq<byte>, w': seq<byte>, hi: nat, off: nat, sge: Sge)
    requires off + 16 <= hi <= |w| == |w'| && w'[..hi] == w[..hi] && SgeAt(w, off, sge)
    ensures SgeAt(w', off, sge)
  {
    BytesAtUpto(w, w', hi, off, LeBytes(sge.len, 4));
    BytesAtUpto(w, w', hi, off + 8, LeBytes(sge.addr, 8));
  }

  // ---------------------------------------------------------------- exact block count

  predicate InlineTooLong(wr: Wr, l: Limits) {
    CarriesInline(wr) && SumLen(wr.local) > MaxInline(UdmaOpcode(wr.op), l.maxInline)
  }

  method InlineTotal(sges: seq<Sge>, limit: u32) returns (r: Option<u32>)
    requires SumLen(sges) < M32
    ensures r == if SumLen(sges) <= limit then Some(SumLen(sges)) else None
  {
    var total: u32 := 0;
    for i := 0 to |sges|
      invariant total == SumLen(sges[..i]) && total <= limit
    {
      SumLenPrefix(sges, i);
      SmallAdd(total, sges[i].len);
      total := Add32(total, sges[i].len);
      if total > limit {
        return None;
      }
    }
    assert sges[..|sges|] == sges;
    return Some(total);
  }

  method CountNonEmpty(sges: seq<Sge>) returns (num: nat)
    ensures num == |NonEmpty(sges)|
  {
    num := 0;
    for i := 0 to |sges|
      invariant num == |NonEmpty(sges[..i])|
    {
      NonEmptyPrefix(sges, i);
      if sges[i].len != 0 {
        num := num + 1;
      }
    }
    assert sges[..|sges|] == sges;
  }

  /** The slow path of the overflow test: the block count of a request, computed from the request
      with 32-bit arithmetic, or None when its inline data is too long. */
  method CountBlocks(wr: Wr, l: Limits) returns (need: Option<u32>)
    requires WellFormed(wr) && LimitsOk(l) && SgeCountOk(wr, l)
    ensures need.None? <==> InlineTooLong(wr, l)
    ensures need.Some? ==> need.value == Blocks(wr) <= MAX_BB
  {
    if IsAtomic(wr.op) {
      return Some(2);
    }
    if wr.op.OpNop? {
      return Some(1);
    }
    var ctl := CtlLen(UdmaOpcode(wr.op));
    if InlineFlag(wr) && !wr.op.OpRead? {
      var total := InlineTotal(wr.local, MaxInline(UdmaOpcode(wr.op), l.maxInline));
      if total.None? {
        return None;
      }
      InlineWqebbNumIsCeiling(ctl, total.value);
      need := Some(InlineWqebbNum(ctl, total.value));
    } else {
      var num := CountNonEmpty(wr.local);
      CalWqebbNumIsCeiling(ctl, num);
      need := Some(CalWqebbNum(ctl, num));
    }
    CeilDivBound(WqeBytes(wr));
  }

  /** `udma_sq_overflow`. */
  predicate SqOverflow(pi: u32, ci: u32, cnt: nat, n: nat) { Add32(Sub32(pi, ci), n) > cnt }

  /** On counters that may have wrapped, the test still compares the true numbers of blocks. */
  lemma OverflowExact(tail: nat, head: nat, cnt: nat, n: nat)
    requires head <= tail <= head + cnt && cnt + n < M32
    ensures SqOverflow(Wrap32(tail), Wrap32(head), cnt, n) <==> tail - head + n > cnt
  {
    CounterDistance(tail, head);
    SmallAdd(tail - head, n);
  }

  /** A request that passes the element and inline checks takes at most four blocks, so the quick
      overflow test is sound. */
  lemma SqeFits(wr: Wr, l: Limits)
    requires WellFormed(wr) && LimitsOk(l) && SgeCountOk(wr, l)
    ensures WindowBlocks(wr, l) <= MAX_BB
    ensures Acceptable(wr, l) ==> !InlineTooLong(wr, l)
    ensures Acceptable(wr, l) ==> forall owner :: HeaderOk(HeaderOf(wr, owner, 0))
  {
    if !InlineTooLong(wr, l) && !IsAtomic(wr.op) && !wr.op.OpNop? {
      CeilDivBound(WqeBytes(wr));
    }
    if Acceptable(wr, l) {
      forall owner
        ensures HeaderOk(HeaderOf(wr, owner, 0))
      {
        AcceptableFits(wr, l, owner, 0);
      }
    }
  }

  /** Element counts are part of acceptance, and they are all a NOP needs. */
  lemma CountRules(wr: Wr, l: Limits)
    requires WellFormed(wr)
    ensures Acceptable(wr, l) ==> SgeCountOk(wr, l)
    ensures wr.op.OpNop? && SgeCountOk(wr, l) ==> Acceptable(wr, l) && Blocks(wr) == 1
  {
  }
}

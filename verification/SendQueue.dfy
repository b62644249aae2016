/** The send queue of a JFS or jetty: posting, completion, flush and reset.

    `log` is the ghost history of unretired requests; `head` and `tail` are the unbounded block
    numbers that the 32-bit `ci` and `pi` stand for. */
module SendQueue {
  import opened Words
  import opened SqeLayout
  import opened RingBytes
  import opened SendRing
  import opened SqeFill

  class SendQueue {
    const cnt: nat
    const limits: Limits
    const qbuf: array<byte>
    const wrid: array<u64>
    const rcTarget: Option<Target>
    const directWqe: bool
    var curr: nat
    var pi: u32
    var ci: u32
    var flushFlag: bool
    var doorbell: u32
    ghost var head: nat
    ghost var tail: nat
    ghost var log: seq<Entry>

    /** A power-of-two ring of at least one page (64 blocks); completions carry 16-bit block
        indices, so at most 2^16 blocks. */
    ghost predicate Shape() {
      && RingCount(cnt) && 64 <= cnt <= 0x1_0000
      && qbuf.Length == BLOCK * cnt && wrid.Length == cnt && LimitsOk(limits)
      && (rcTarget.Some? ==> |rcTarget.value.eid| == 16)
    }

    ghost predicate Valid()
      reads this, qbuf, wrid
      ensures Valid() ==> forall i :: 0 <= i < |log| ==> WellFormed(log[i].wr)
    {
      && Shape()
      && pi == Wrap32(tail) && ci == Wrap32(head)
      && curr == BlockBase(tail, cnt)
      && Inv(qbuf[..], wrid[..], cnt, limits, log, head, tail)
    }

    /** A connected (RC) jetty replaces the target named in the request. */
    function Resolve(wr: Wr): Wr {
      if rcTarget.Some? then wr.(target := rcTarget.value) else wr
    }

    constructor (cnt: nat, limits: Limits, rcTarget: Option<Target>, directWqe: bool)
      requires RingCount(cnt) && 64 <= cnt <= 0x1_0000 && LimitsOk(limits)
      requires rcTarget.Some? ==> |rcTarget.value.eid| == 16
      ensures Valid() && fresh(qbuf) && fresh(wrid)
      ensures log == [] && head == tail == 0 && !flushFlag
      ensures this.cnt == cnt && this.limits == limits && this.rcTarget == rcTarget && this.directWqe == directWqe
    {
      this.cnt, this.limits, this.rcTarget, this.directWqe := cnt, limits, rcTarget, directWqe;
      qbuf, wrid := new byte[BLOCK * cnt], new u64[cnt];
      curr, pi, ci, flushFlag, doorbell := 0, 0, 0, false, 0;
      head, tail, log := 0, 0, [];
    }

    // -------------------------------------------------------------- writes into the ring

    /** The memory is `buf`, except that the window at the current position holds `w`. */
    ghost predicate Holds(buf: seq<byte>, w: seq<byte>)
      reads this, qbuf
    {
      && Shape() && curr < qbuf.Length && curr % BLOCK == 0
      && |buf| == qbuf.Length && |w| <= qbuf.Length
      && forall i :: 0 <= i < qbuf.Length ==> qbuf[i] == ByteAt(buf, curr, w, i)
    }

    /** A copy without wrap handling: it must lie inside one block. */
    method StoreFlat(p: nat, bytes: seq<byte>, ghost off: nat, ghost buf: seq<byte>, ghost w: seq<byte>)
      requires Holds(buf, w) && off + |bytes| <= |w| && p == IncWrap(curr, off, qbuf.Length)
      requires off % BLOCK + |bytes| <= BLOCK
      modifies qbuf
      ensures Holds(buf, Splice(w, off, bytes))
    {
      assert p + |bytes| <= qbuf.Length;
      forall i | 0 <= i < |bytes| {
        qbuf[p + i] := bytes[i];
      }
      forall i | 0 <= i < qbuf.Length
        ensures qbuf[i] == ByteAt(buf, curr, Splice(w, off, bytes), i)
      {
        WriteWithin(buf, curr, w, off, bytes, i);
      }
    }

    /** `handle_sq_inline`: a copy that runs past the end of the buffer continues at its start. */
    method StoreWrapped(p: nat, bytes: seq<byte>, ghost off: nat, ghost buf: seq<byte>, ghost w: seq<byte>)
      requires Holds(buf, w) && off + |bytes| <= |w| && p == IncWrap(curr, off, qbuf.Length)
      modifies qbuf
      ensures Holds(buf, Splice(w, off, bytes))
    {
      if p + |bytes| <= qbuf.Length {
        forall i | 0 <= i < |bytes| {
          qbuf[p + i] := bytes[i];
        }
      } else {
        var tailLen := qbuf.Length - p;
        forall i | 0 <= i < tailLen {
          qbuf[p + i] := bytes[i];
        }
        forall i | tailLen <= i < |bytes| {
          qbuf[i - tailLen] := bytes[i];
        }
      }
      forall i | 0 <= i < qbuf.Length
        ensures qbuf[i] == ByteAt(buf, curr, Splice(w, off, bytes), i)
      {
        WriteWithin(buf, curr, w, off, bytes, i);
      }
    }

    method StoreToken(off: nat, id: u32, value: u32, ghost buf: seq<byte>, ghost w: seq<byte>)
      requires Holds(buf, w) && off + 8 <= |w| && off + 8 <= BLOCK
      modifies qbuf
      ensures Holds(buf, TokenSplice(w, off, id, value))
    {
      var bytes := [id % 256, id / 256 % 256, qbuf[curr + off + 2] / 16 * 16 + id / 0x1_0000 % 16];
      StoreFlat(curr + off, bytes, off, buf, w);
      StoreFlat(curr + off + 4, LeBytes(value, 4), off + 4, buf, Splice(w, off, bytes));
    }

    /** Length and address of one element; the two fields never straddle the end of the buffer. */
    method StoreSge(p: nat, sge: Sge, ghost off: nat, ghost buf: seq<byte>, ghost w: seq<byte>)
      requires Holds(buf, w) && off + 16 <= |w| && off % 16 == 0 && p == IncWrap(curr, off, qbuf.Length)
      modifies qbuf
      ensures Holds(buf, SgeSplice(w, off, sge))
    {
      SameBlock(curr, off, 8, qbuf.Length);
      hide Holds;
      hide IncWrap;
      hide LeBytes;
      StoreFlat(p, LeBytes(sge.len, 4), off, buf, w);
      StoreFlat(p + 8, LeBytes(sge.addr, 8), off + 8, buf, Splice(w, off, LeBytes(sge.len, 4)));
    }

    /** One turn of the inline loop. */
    method AddInline(dst: nat, ctl: nat, sges: seq<Sge>, i: nat, ghost buf: seq<byte>, ghost w: seq<byte>)
      returns (ghost w': seq<byte>)
      requires Holds(buf, w) && i < |sges| && DataMatches(sges) && BytesAt(w, ctl, Payload(sges[..i]))
      requires ctl + SumLen(sges[..i]) + sges[i].len <= |w|
      requires dst == IncWrap(curr, ctl + SumLen(sges[..i]), qbuf.Length)
      modifies qbuf
      ensures Holds(buf, w') && |w'| == |w| && w'[..ctl] == w[..ctl] && BytesAt(w', ctl, Payload(sges[..i + 1]))
    {
      PayloadLength(sges[..i]);
      var off := ctl + |Payload(sges[..i])|;
      PayloadGrows(w, ctl, sges, i);
      w' := Splice(w, off, sges[i].data);
      StoreWrapped(dst, sges[i].data, off, buf, w);
    }

    /** The inline loop of the fill functions. */
    method FillInline(ctl: nat, limit: nat, sges: seq<Sge>, ghost buf: seq<byte>, ghost w: seq<byte>)
      returns (ok: bool, total: u32, ghost w': seq<byte>)
      requires Holds(buf, w) && ctl <= |w|
      requires DataMatches(sges) && SumLen(sges) < M32 && limit <= 208
      requires ctl + Min(limit, SumLen(sges)) <= |w|
      modifies qbuf
      ensures Holds(buf, w') && |w'| == |w| && w'[..ctl] == w[..ctl]
      ensures ok <==> SumLen(sges) <= limit
      ensures ok ==> total == SumLen(sges) && BytesAt(w', ctl, Payload(sges))
    {
      total, w' := 0, w;
      var first := IncWrap(curr, ctl, qbuf.Length);
      for i := 0 to |sges|
        invariant total == SumLen(sges[..i]) && total <= limit && total <= SumLen(sges)
        invariant Holds(buf, w') && |w'| == |w| && w'[..ctl] == w[..ctl]
        invariant BytesAt(w', ctl, Payload(sges[..i]))
      {
        SumLenPrefix(sges, i);
        SmallAdd(total, sges[i].len);
        if Add32(total, sges[i].len) > limit {
          return false, total, w';
        }
        var dst := IncWrap(first, total, qbuf.Length);
        w' := AddInline(dst, ctl, sges, i, buf, w');
        total := total + sges[i].len;
      }
      assert sges[..|sges|] == sges;
      return true, total, w';
    }

    /** One turn of the element loop: `done` are the elements stored so far. */
    method AddSge(p: nat, ctl: nat, x: Sge, ghost done: seq<Sge>, ghost buf: seq<byte>, ghost w: seq<byte>)
      returns (ghost w': seq<byte>)
      requires Holds(buf, w) && ctl % 16 == 0 && ctl + 16 * |done| + 16 <= |w|
      requires SgesAt(w, ctl, done) && p == IncWrap(curr, ctl + 16 * |done|, qbuf.Length)
      modifies qbuf
      ensures Holds(buf, w') && |w'| == |w| && w'[..ctl] == w[..ctl] && SgesAt(w', ctl, done + [x])
    {
      SgesAtSnoc(w, ctl, done, x);
      w' := SgeSplice(w, ctl + 16 * |done|, x);
      StoreSge(p, x, ctl + 16 * |done|, buf, w);
    }

    /** The element loop of the fill functions: empty elements are skipped. */
    method FillSges(ctl: nat, sges: seq<Sge>, ghost buf: seq<byte>, ghost w: seq<byte>)
      returns (num: nat, ghost w': seq<byte>)
      requires Holds(buf, w) && ctl % 16 == 0 && ctl + 16 * |NonEmpty(sges)| <= |w|
      modifies qbuf
      ensures Holds(buf, w') && |w'| == |w| && w'[..ctl] == w[..ctl]
      ensures num == |NonEmpty(sges)| && SgesAt(w', ctl, NonEmpty(sges))
    {
      num, w' := 0, w;
      var p := IncWrap(curr, ctl, qbuf.Length);
      for i := 0 to |sges|
        invariant num == |NonEmpty(sges[..i])| && ctl + 16 * num <= |w|
        invariant p == IncWrap(curr, ctl + 16 * num, qbuf.Length)
        invariant Holds(buf, w') && |w'| == |w| && w'[..ctl] == w[..ctl]
        invariant SgesAt(w', ctl, NonEmpty(sges[..i]))
      {
        NonEmptyPrefix(sges, i);
        NonEmptyMonotonic(sges, i + 1);
        if sges[i].len != 0 {
          w' := AddSge(p, ctl, sges[i], NonEmpty(sges[..i]), buf, w');
          p := IncWrap(p, 16, qbuf.Length);
          num := num + 1;
        }
      }
      assert sges[..|sges|] == sges;
    }

    // -------------------------------------------------------------- filling a request

    method FillSend(wr: Wr, h: Header, ghost owner: bool, ghost buf: seq<byte>, ghost w: seq<byte>)
      returns (ok: bool, h': Header, blocks: u32, ghost w': seq<byte>)
      requires Holds(buf, w) && WellFormed(wr) && IsSend(wr.op) && SgeCountOk(wr, limits)
      requires h == BaseHeader(wr, owner) && RoomFor(wr, limits, |w|)
      modifies qbuf
      ensures Holds(buf, w') && |w'| == |w|
      ensures ok <==> Acceptable(wr, limits)
      ensures ok ==> BodyOk(w', wr) && h' == HeaderOf(wr, owner, 0) && blocks == Blocks(wr)
    {
      hide Holds;
      hide SumLen;
      hide NonEmpty;
      hide Payload;
      hide SgesAt;
      h' := h.(rmtId := wr.target.id % 0x10_0000, tokenEn := wr.target.tokenValid,
               token := wr.target.tokenValue, hint := wr.hint);
      if InlineFlag(wr) {
        var total;
        ok, total, w' := FillInline(48, limits.maxInline, wr.local, buf, w);
        if !ok {
          return false, h', 0, w';
        }
        blocks := InlineWqebbNum(48, total);
        InlineWqebbNumIsCeiling(48, total);
        h' := h'.(inlineLen := total);
      } else {
        var num;
        num, w' := FillSges(48, wr.local, buf, w);
        ok, blocks := true, CalWqebbNum(48, num);
        CalWqebbNumIsCeiling(48, num);
        h' := h'.(sgeNum := num);
      }
      if wr.op.OpSendImm? {
        h' := h'.(addrL := wr.imm % M32, addrH := wr.imm / M32);
      } else if wr.op.OpSendInvalidate? {
        h' := h'.(addrL := wr.invalid.tid, addrH := wr.invalid.tokenValue);
      }
    }

    method FillWrite(wr: Wr, h: Header, ghost owner: bool, ghost buf: seq<byte>, ghost w: seq<byte>)
      returns (ok: bool, h': Header, blocks: u32, ghost w': seq<byte>)
      requires Holds(buf, w) && WellFormed(wr) && IsWrite(wr.op) && SgeCountOk(wr, limits)
      requires h == BaseHeader(wr, owner) && RoomFor(wr, limits, |w|)
      modifies qbuf
      ensures Holds(buf, w') && |w'| == |w|
      ensures ok <==> Acceptable(wr, limits)
      ensures ok ==> PayloadOk(w', wr) && h' == HeaderOf(wr, owner, 0) && blocks == Blocks(wr)
    {
      hide Holds;
      hide SumLen;
      hide NonEmpty;
      hide Payload;
      hide SgesAt;
      var ctl := CtlLen(h.opcode);
      h' := h;
      if InlineFlag(wr) {
        var total;
        ok, total, w' := FillInline(ctl, MaxInline(h.opcode, limits.maxInline), wr.local, buf, w);
        if !ok {
          return false, h', 0, w';
        }
        blocks := InlineWqebbNum(ctl, total);
        InlineWqebbNumIsCeiling(ctl, total);
        h' := h'.(inlineLen := total);
      } else {
        var num;
        num, w' := FillSges(ctl, wr.local, buf, w);
        ok, blocks := true, CalWqebbNum(ctl, num);
        CalWqebbNumIsCeiling(ctl, num);
        h' := h'.(sgeNum := num);
      }
      var dst := wr.remote[0];
      h' := h'.(rmtId := dst.seg.tid % 0x10_0000, tokenEn := dst.seg.tokenValid, token := dst.seg.tokenValue,
                hint := wr.hint, addrL := dst.addr % M32, addrH := dst.addr / M32);
    }

    /** The extra control fields of a write with immediate data or with notify. */
    method FillWriteExtra(wr: Wr, ghost buf: seq<byte>, ghost w: seq<byte>) returns (ghost w': seq<byte>)
      requires Holds(buf, w) && WellFormed(wr) && IsWrite(wr.op) && CtlLen(UdmaOpcode(wr.op)) <= |w|
      requires PayloadOk(w, wr)
      modifies qbuf
      ensures Holds(buf, w') && |w'| == |w| && BodyOk(w', wr)
    {
      w' := w;
      if wr.op.OpWriteImm? {
        ImmExtraOk(w, wr);
        w' := ImmExtra(w, wr);
        StoreFlat(curr + 48, LeBytes(wr.imm, 8), 48, buf, w);
        StoreToken(56, wr.target.id, wr.target.tokenValue, buf, Splice(w, 48, LeBytes(wr.imm, 8)));
      } else if wr.op.OpWriteNotify? {
        NotifyExtraOk(w, wr);
        w' := NotifyExtra(w, wr);
        var dst := wr.remote[1];
        ghost var w1 := TokenSplice(w, 48, dst.seg.tid, dst.seg.tokenValue);
        StoreToken(48, dst.seg.tid, dst.seg.tokenValue, buf, w);
        StoreFlat(IncWrap(curr, 56, qbuf.Length), LeBytes(dst.addr, 8), 56, buf, w1);
        StoreFlat(IncWrap(curr, 64, qbuf.Length), LeBytes(wr.imm, 8), 64, buf, Splice(w1, 56, LeBytes(dst.addr, 8)));
      }
    }

    method FillRead(wr: Wr, h: Header, ghost owner: bool, ghost buf: seq<byte>, ghost w: seq<byte>)
      returns (h': Header, blocks: u32, ghost w': seq<byte>)
      requires Holds(buf, w) && WellFormed(wr) && wr.op.OpRead? && SgeCountOk(wr, limits)
      requires h == BaseHeader(wr, owner) && RoomFor(wr, limits, |w|)
      modifies qbuf
      ensures Holds(buf, w') && |w'| == |w|
      ensures Acceptable(wr, limits) && BodyOk(w', wr) && h' == HeaderOf(wr, owner, 0) && blocks == Blocks(wr)
    {
      var num;
      num, w' := FillSges(48, wr.local, buf, w);
      blocks := CalWqebbNum(48, num);
      CalWqebbNumIsCeiling(48, num);
      var src := wr.remote[0];
      h' := h.(sgeNum := num, rmtId := src.seg.tid % 0x10_0000, tokenEn := src.seg.tokenValid,
               token := src.seg.tokenValue, addrL := src.addr % M32, addrH := src.addr / M32);
    }

    method StoreAtomic(wr: Wr, ghost buf: seq<byte>, ghost w: seq<byte>) returns (ghost w': seq<byte>)
      requires Holds(buf, w) && |w| >= 128 && WellFormed(wr) && IsAtomic(wr.op) && AtomicLenOk(wr)
      modifies qbuf
      ensures Holds(buf, w') && |w'| == |w| && BodyOk(w', wr)
    {
      var sge := wr.local[0];
      AtomicBodyOk(w, wr);
      w' := AtomicBody(w, wr);
      ghost var w1 := SgeSplice(w, 48, sge);
      StoreSge(IncWrap(curr, 48, qbuf.Length), sge, 48, buf, w);
      StoreFlat(IncWrap(curr, 64, qbuf.Length), wr.operand, 64, buf, w1);
      if wr.op.OpCas? {
        StoreFlat(IncWrap(curr, 64 + sge.len, qbuf.Length), wr.compare, 64 + sge.len, buf, Splice(w1, 64, wr.operand));
      }
    }

    method FillAtomic(wr: Wr, h: Header, ghost owner: bool, ghost buf: seq<byte>, ghost w: seq<byte>)
      returns (ok: bool, h': Header, ghost w': seq<byte>)
      requires Holds(buf, w) && WellFormed(wr) && IsAtomic(wr.op) && SgeCountOk(wr, limits)
      requires h == BaseHeader(wr, owner) && RoomFor(wr, limits, |w|)
      modifies qbuf
      ensures Holds(buf, w') && |w'| == |w|
      ensures ok <==> Acceptable(wr, limits)
      ensures ok ==> BodyOk(w', wr) && h' == HeaderOf(wr, owner, 0)
    {
      if !AtomicLenOk(wr) {
        return false, h, w;
      }
      w' := StoreAtomic(wr, buf, w);
      var dst := wr.remote[0];
      ok := true;
      h' := h.(sgeNum := 1, rmtId := dst.seg.tid % 0x10_0000, tokenEn := dst.seg.tokenValid,
               token := dst.seg.tokenValue, addrL := dst.addr % M32, addrH := dst.addr / M32);
    }

    // -------------------------------------------------------------- posting

    /** `udma_check_sq_overflow`: a quick test against the largest request, then the exact count. */
    method Overflow(wr: Wr) returns (full: bool)
      requires Valid() && WellFormed(wr) && SgeCountOk(wr, limits)
      ensures full <==> cnt < tail - head + MAX_BB && (InlineTooLong(wr, limits) || cnt < tail - head + Blocks(wr))
    {
      hide Inv;
      hide Blocks;
      hide SqOverflow;
      Bounds();
      OverflowExact(tail, head, cnt, MAX_BB);
      if !SqOverflow(pi, ci, cnt, MAX_BB) {
        return false;
      }
      var need := CountBlocks(wr, limits);
      if need.None? {
        return true;
      }
      OverflowExact(tail, head, cnt, need.value);
      return SqOverflow(pi, ci, cnt, need.value);
    }

    /** `udma_parse_jfs_wr`: the operation-specific part. */
    method FillBody(wr: Wr, h: Header, ghost owner: bool, ghost buf: seq<byte>, ghost w: seq<byte>)
      returns (ok: bool, h': Header, blocks: u32, ghost w': seq<byte>)
      requires Holds(buf, w) && WellFormed(wr) && !wr.op.OpNop? && SgeCountOk(wr, limits)
      requires h == BaseHeader(wr, owner) && RoomFor(wr, limits, |w|)
      modifies qbuf
      ensures Holds(buf, w') && |w'| == |w|
      ensures ok <==> Acceptable(wr, limits)
      ensures ok ==> BodyOk(w', wr) && h' == HeaderOf(wr, owner, 0) && blocks == Blocks(wr)
    {
      if IsSend(wr.op) {
        ok, h', blocks, w' := FillSend(wr, h, owner, buf, w);
      } else if IsWrite(wr.op) {
        ok, h', blocks, w' := FillWrite(wr, h, owner, buf, w);
        if ok {
          w' := FillWriteExtra(wr, buf, w');
        }
      } else if wr.op.OpRead? {
        ok := true;
        h', blocks, w' := FillRead(wr, h, owner, buf, w);
      } else {
        blocks := 2;
        ok, h', w' := FillAtomic(wr, h, owner, buf, w);
      }
    }

    /** A NOP is a bare header. */
    method WriteNop(wr: Wr, owner: bool, ghost buf: seq<byte>, ghost w: seq<byte>) returns (ghost w': seq<byte>)
      requires Holds(buf, w) && WellFormed(wr) && wr.op.OpNop? && SgeCountOk(wr, limits) && |w| == BLOCK
      modifies qbuf
      ensures Holds(buf, w') && |w'| == |w| && Content(w', wr, owner, 0)
    {
      hide Encode;
      SqeFits(wr, limits);
      var h := Header(0, wr.flag % 128, false, 0, owner, 0, OPC_NOP, 0, 0, 0, 0, seq(16, _ => 0), 0, 0, 0);
      assert h == HeaderOf(wr, owner, 0);
      StoreFlat(curr, Encode(h), 0, buf, w);
      w' := Splice(w, 0, Encode(h));
    }

    /** Writes header and body into the window `w`. */
    method WriteSqe(wr: Wr, owner: bool, ghost buf: seq<byte>, ghost w: seq<byte>)
      returns (ok: bool, blocks: u32, ghost w': seq<byte>)
      requires Holds(buf, w) && WellFormed(wr) && !wr.op.OpNop? && SgeCountOk(wr, limits)
      requires |w| == BLOCK * WindowBlocks(wr, limits)
      modifies qbuf
      ensures Holds(buf, w') && |w'| == |w|
      ensures ok <==> Acceptable(wr, limits)
      ensures ok ==> blocks == Blocks(wr) && Content(w', wr, owner, 0)
    {
      hide Acceptable;
      hide Blocks;
      hide Encode;
      SqeFits(wr, limits);
      WindowHasRoom(wr, limits);
      var base := BaseHeader(wr, owner);
      StoreFlat(curr, Encode(base), 0, buf, w);
      var h;
      ok, h, blocks, w' := FillBody(wr, base, owner, buf, Splice(w, 0, Encode(base)));
      if ok {
        StoreFlat(curr, Encode(h), 0, buf, w');
        BodyOkFrom(w', Splice(w', 0, Encode(h)), wr);
        w' := Splice(w', 0, Encode(h));
      }
    }

    /** `udma_set_sqe`: builds the WQE at the current position.  Only free blocks are written, also
        when the request is refused after part of it was written. */
    method SetSqe(wr: Wr) returns (ok: bool, blocks: u32, ghost w: seq<byte>)
      requires Valid() && WellFormed(wr) && SgeCountOk(wr, limits)
      modifies qbuf
      ensures Holds(old(qbuf[..]), w) && |w| <= BLOCK * (cnt - (tail - head))
      ensures ok <==> Acceptable(wr, limits) && tail - head + Blocks(wr) <= cnt
      ensures ok ==> blocks == Blocks(wr) && |w| == BLOCK * Blocks(wr) && Content(w, wr, OwnerBit(tail, cnt), 0)
    {
      hide Valid;
      hide Blocks;
      hide Acceptable;
      hide Content;
      ghost var buf := qbuf[..];
      Bounds();
      SqeFits(wr, limits);
      CountRules(wr, limits);
      var full := Overflow(wr);
      if full {
        return false, 0, [];
      }
      w := Linear(buf, curr, BLOCK * WindowBlocks(wr, limits));
      WindowOfItself(buf, curr, |w|);
      var owner := (pi / cnt) % 2 == 0;
      CounterLap(tail, cnt);
      if wr.op.OpNop? {
        ok, blocks := true, 1;
        w := WriteNop(wr, owner, buf, w);
      } else {
        ok, blocks, w := WriteSqe(wr, owner, buf, w);
      }
    }

    /** Records the user context for every block of the new request. */
    method SetContexts(blocks: nat, ctx: u64)
      requires Shape() && pi == Wrap32(tail) && head <= tail && tail + blocks <= head + cnt
      modifies wrid
      ensures forall k: nat :: tail <= k < tail + blocks ==> wrid[Slot(k, cnt)] == ctx
      ensures forall k: nat :: head <= k < tail ==> wrid[Slot(k, cnt)] == old(wrid[Slot(k, cnt)])
    {
      hide Wrap32;
      hide Add32;
      hide Sub32;
      hide Slot;
      for i := 0 to blocks
        invariant forall k: nat :: tail <= k < tail + i ==> wrid[Slot(k, cnt)] == ctx
        invariant forall k: nat :: head <= k < tail ==> wrid[Slot(k, cnt)] == old(wrid[Slot(k, cnt)])
      {
        CounterSlot(tail + i, cnt);
        WrapAdd(tail, i);
        forall k: nat | head <= k < tail + i
          ensures Slot(k, cnt) != Slot(tail + i, cnt)
        {
          SlotsDistinct(k, tail + i, cnt);
        }
        wrid[Slot(Add32(pi, i), cnt)] := ctx;
      }
    }

    /** What every caller may know of a valid queue. */
    lemma Bounds()
      requires Valid()
      ensures Shape() && head <= tail <= head + cnt
      ensures log == [] <==> head == tail
      ensures Sub32(pi, ci) == tail - head && pi == Wrap32(tail)
      ensures curr == BlockBase(tail, cnt) && curr % BLOCK == 0 && curr < qbuf.Length
    {
      hide Wrap32;
      hide Sub32;
      hide Slot;
      hide EntryStored;
      hide CtxStored;
      hide EntryWf;
      CounterDistance(tail, head);
      if log != [] {
        EntryWithin(log, limits, head, tail, 0);
      }
    }

    /** `udma_u_post_one_wr`: the number of blocks taken, 0 for a refusal.  A request is accepted
        exactly when it is acceptable and its blocks are free; accepted or refused, no block in use
        changes. */
    method PostOne(request: Wr) returns (blocks: nat)
      requires Valid() && WellFormed(Resolve(request))
      modifies this, qbuf, wrid
      ensures Valid()
      ensures head == old(head) && flushFlag == old(flushFlag) && doorbell == old(doorbell)
      ensures blocks > 0 <==> Fits(Resolve(request), limits, cnt - (old(tail) - head))
      ensures if blocks > 0
              then blocks == Blocks(Resolve(request)) && log == old(log) + [Entry(Resolve(request), old(tail), 0)]
              else log == old(log)
      ensures tail == old(tail) + blocks
      ensures InUseSame(old(qbuf[..]), qbuf[..], cnt, head, old(tail))
    {
      hide Inv;
      hide Acceptable;
      hide Blocks;
      var wr := Resolve(request);
      Bounds();
      CountRules(wr, limits);
      if !SgeCountOk(wr, limits) {
        return 0;
      }
      ghost var buf, ids := qbuf[..], wrid[..];
      var ok;
      ghost var w;
      ok, blocks, w := SetSqe(wr);
      PostFrame(buf, qbuf[..], ids, cnt, limits, log, head, tail, w);
      if !ok {
        return 0;
      }
      WindowRead(buf, curr, w, qbuf[..]);
      SqeFits(wr, limits);
      Commit(wr, blocks);
    }

    /** Publishes the WQE that lies at the current position. */
    method Commit(wr: Wr, blocks: nat)
      requires Valid() && EntryWf(Entry(wr, tail, 0), limits) && tail - head + Blocks(wr) <= cnt
      requires EntryStored(qbuf[..], cnt, Entry(wr, tail, 0)) && blocks == Blocks(wr)
      modifies this`curr, this`pi, this`tail, this`log, wrid
      ensures Valid() && log == old(log) + [Entry(wr, old(tail), 0)] && tail == old(tail) + blocks
    {
      hide Inv;
      hide EntryStored;
      hide EntryWf;
      hide Wrap32;
      hide Add32;
      hide Sub32;
      Bounds();
      ghost var ids, e := wrid[..], Entry(wr, tail, 0);
      SetContexts(blocks, wr.userCtx);
      InvAppend(qbuf[..], ids, wrid[..], cnt, limits, log, head, tail, e);
      SlotStep(tail, blocks, cnt);
      WrapAdd(tail, blocks);
      curr := IncWrap(curr, blocks * BLOCK, qbuf.Length);
      pi := Add32(pi, blocks);
      tail, log := tail + blocks, log + [e];
    }

    /** `udma_u_post_sq_wr`: posts a list up to the first refused request, then rings the doorbell or,
        for a single one-block request on an idle queue, writes the WQE through the direct window. */
    method PostList(requests: seq<Wr>) returns (ok: bool, bad: nat)
      requires Valid() && forall i :: 0 <= i < |requests| ==> WellFormed(Resolve(requests[i]))
      modifies this, qbuf, wrid
      ensures Valid() && head == old(head) && flushFlag == old(flushFlag)
      ensures bad <= |requests| && (ok <==> bad == |requests|)
      ensures Requests(log) == Requests(old(log)) + Resolved(requests[..bad])
      ensures bad < |requests| ==> !Fits(Resolve(requests[bad]), limits, cnt - (tail - head))
      ensures doorbell == pi || bad == 0 || (bad == 1 && |log| == 1 && log[0].bbIdx == pi % 0x1_0000)
      ensures InUseSame(old(qbuf[..]), qbuf[..], cnt, head, old(tail))
      ensures Aligned(old(log), head) ==> Aligned(log, head)
    {
      hide Valid;
      hide Fits;
      hide Blocks;
      hide Sub32;
      hide Wrap32;
      hide BlockBase;
      Bounds();
      var single, addr;
      bad, single, addr := PostEach(requests);
      ok := bad == |requests|;
      Bounds();
      if bad == 1 && single && Sub32(pi, ci) == 1 {
        WriteDirect(addr);
        assert Requests(log) == [Resolve(requests[0])];
      } else if bad > 0 {
        RingDoorbell();
      }
    }

    /** The loop of the list post.  `single` says that the last request took one block and may go out
        directly; `addr` is where it starts. */
    method PostEach(requests: seq<Wr>) returns (bad: nat, single: bool, addr: nat)
      requires Valid() && forall i :: 0 <= i < |requests| ==> WellFormed(Resolve(requests[i]))
      modifies this, qbuf, wrid
      ensures Valid() && head == old(head) && flushFlag == old(flushFlag) && doorbell == old(doorbell)
      ensures bad <= |requests| && Requests(log) == Requests(old(log)) + Resolved(requests[..bad])
      ensures bad < |requests| ==> !Fits(Resolve(requests[bad]), limits, cnt - (tail - head))
      ensures bad == 0 ==> tail == old(tail) && log == old(log)
      ensures bad == 1 && single ==> DirectReady(old(log), old(tail), Resolve(requests[0]), addr)
      ensures InUseSame(old(qbuf[..]), qbuf[..], cnt, head, old(tail))
      ensures Aligned(old(log), head) ==> Aligned(log, head)
    {
      hide Valid;
      hide Fits;
      hide Blocks;
      Bounds();
      bad, single, addr := 0, false, curr;
      assert Resolved(requests[..0]) == [];
      while bad < |requests|
        invariant Valid() && head == old(head) && flushFlag == old(flushFlag) && doorbell == old(doorbell)
        invariant bad <= |requests| && tail >= old(tail)
        invariant Requests(log) == Requests(old(log)) + Resolved(requests[..bad])
        invariant bad == 0 ==> tail == old(tail) && log == old(log)
        invariant bad == 1 && single ==> DirectReady(old(log), old(tail), Resolve(requests[0]), addr)
        invariant InUseSame(old(qbuf[..]), qbuf[..], cnt, head, old(tail))
        invariant Aligned(old(log), head) ==> Aligned(log, head)
      {
        ghost var mid, before, tail0 := qbuf[..], log, tail;
        Bounds();
        var at := curr;
        var blocks := PostOne(requests[bad]);
        BlocksStay(old(qbuf[..]), mid, qbuf[..], cnt, head, old(tail), tail0);
        if blocks == 0 {
          break;
        }
        RequestsAppend(before, log, Resolve(requests[bad]));
        ResolvedAppend(requests, bad);
        single, addr := blocks == 1 && directWqe, at;
        bad := bad + 1;
      }
    }

    ghost predicate DirectReady(log0: seq<Entry>, tail0: nat, wr: Wr, addr: nat)
      reads this
    {
      0 < cnt && tail == tail0 + 1 && log == log0 + [Entry(wr, tail0, 0)] && addr == BlockBase(tail0, cnt)
    }

    /** `udma_update_sq_db`. */
    method RingDoorbell()
      requires Valid()
      modifies this`doorbell
      ensures Valid() && doorbell == pi
    {
      doorbell := pi;
    }

    ghost function Resolved(requests: seq<Wr>): (r: seq<Wr>)
      ensures |r| == |requests|
    {
      seq(|requests|, i requires 0 <= i < |requests| => Resolve(requests[i]))
    }

    lemma ResolvedAppend(requests: seq<Wr>, i: nat)
      requires i < |requests|
      ensures Resolved(requests[..i + 1]) == Resolved(requests[..i]) + [Resolve(requests[i])]
    {
    }

    /** `udma_write_dsqe`: stores the block index in the header of the only WQE in the queue. */
    method WriteDirect(addr: nat)
      requires Valid() && tail == head + 1 && addr == BlockBase(head, cnt)
      requires |log| == 1 && log[0].start == head
      modifies this`log, qbuf
      ensures Valid() && log == [old(log)[0].(bbIdx := pi % 0x1_0000)]
    {
      hide Inv;
      var idx := pi % 0x1_0000;
      ghost var e := log[0];
      ghost var buf: seq<byte> := qbuf[..];
      assert log == [e];
      var lo: byte, hi: byte := idx % 256, idx / 256;
      qbuf[addr], qbuf[addr + 1] := lo, hi;
      log := [e.(bbIdx := idx)];
      assert qbuf[..] == buf[addr := lo][addr + 1 := hi];
      DirectInv(buf, qbuf[..], wrid[..], cnt, limits, e, head, tail, idx);
    }

    // -------------------------------------------------------------- completions

    /** A send completion that names outstanding block `k` by the low 16 bits of its number: every
        request before the owner of `k` is retired with it, signalled or not, and the context of the
        owner is returned. */
    method Complete(entryIdx: u32, ghost k: nat) returns (ctx: u64)
      requires Valid() && head <= k < tail && entryIdx == k % 0x1_0000
      modifies this`ci, this`head, this`log
      ensures Valid() && head == k + 1
      ensures var i := OwnerIndex(old(log), limits, old(head), tail, k);
              && ctx == old(log)[i].wr.userCtx
              && log == if k + 1 == End(old(log)[i]) then old(log)[i + 1..] else old(log)[i..]
    {
      hide Wrap32;
      hide Add32;
      hide Sub32;
      hide Slot;
      hide Inv;
      Bounds();
      RetireStep(qbuf[..], wrid[..], cnt, limits, log, head, tail, k);
      CompletionIndex(k, head, cnt);
      WrapAdd(head, k - head);
      ci := Add32(ci, Slot(Sub32(entryIdx, ci), cnt));
      CounterSlot(k, cnt);
      ctx := wrid[Slot(ci, cnt)];
      WrapAdd(k, 1);
      ci := Add32(ci, 1);
      log, head := Retire(log, k + 1), k + 1;
    }

    /** The completion that ends a flush by the device. */
    method FlushDone()
      requires Valid()
      modifies this`flushFlag
      ensures Valid() && flushFlag
    {
      flushFlag := true;
    }

    // -------------------------------------------------------------- flush and reset

    /** `copy_from_sq`: four blocks from the consumer position, in ring order. */
    method CopyFromSq() returns (tmp: seq<byte>)
      requires Valid()
      ensures tmp == Linear(qbuf[..], BlockBase(head, cnt), BLOCK * MAX_BB)
    {
      hide Inv;
      hide Wrap32;
      Bounds();
      CounterSlot(head, cnt);
      var slot := Slot(ci, cnt);
      var remain := cnt - slot;
      var high := if remain > MAX_BB then MAX_BB else remain;
      var low := if MAX_BB > high then MAX_BB - high else 0;
      tmp := qbuf[slot * BLOCK..slot * BLOCK + high * BLOCK];
      if low > 0 {
        tmp := tmp + qbuf[..low * BLOCK];
      }
    }

    /** `udma_u_flush_sq`: the record owed for the oldest request, and the consumer moves behind it. */
    method FlushOne(localId: u32, isJetty: bool) returns (r: FlushRecord)
      requires Valid() && Aligned(log, head) && head < tail
      modifies this`ci, this`head, this`log
      ensures Valid() && Aligned(log, head)
      ensures old(log) != [] && r == RecordFor(old(log)[0], localId, isJetty)
      ensures log == old(log)[1..] && head == End(old(log)[0])
    {
      hide Wrap32;
      hide Add32;
      hide Slot;
      hide Content;
      hide EntryStored;
      hide StoredBlocks;
      hide DecodeCr;
      ghost var e := log[0];
      var tmp := CopyFromSq();
      OldestStored(qbuf[..], wrid[..], cnt, limits, log, head, tail);
      var cr := FillCr(tmp);
      CounterSlot(head, cnt);
      r := FlushRecord(cr, wrid[Slot(ci, cnt)], localId, isJetty);
      var blocks := StoredBlocks(tmp);
      WrapAdd(head, blocks);
      InvDropFirst(qbuf[..], wrid[..], cnt, limits, log, head, tail);
      LogTail(log, limits, head, tail);
      ci := Add32(ci, blocks);
      log, head := log[1..], End(e);
    }

    /** `udma_u_flush_jfs`: one record per unretired request, in posting order, until the ring is empty
        or the caller's array is full. */
    method Flush(localId: u32, isJetty: bool, max: nat) returns (rs: seq<FlushRecord>)
      requires Valid() && Aligned(log, head)
      modifies this`ci, this`head, this`log
      ensures Valid() && Aligned(log, head)
      ensures |rs| == if flushFlag then Min(max, |old(log)|) else 0
      ensures rs == RecordsFor(old(log), |rs|, localId, isJetty) && log == old(log)[|rs|..]
      ensures flushFlag && max >= |old(log)| ==> log == [] && ci == pi
    {
      hide Inv;
      hide Wrap32;
      hide Add32;
      hide Sub32;
      rs := [];
      Bounds();
      if !flushFlag {
        return;
      }
      while |rs| < max
        invariant Valid() && Aligned(log, head)
        invariant |rs| <= max && |rs| <= |old(log)| && log == old(log)[|rs|..]
        invariant rs == RecordsFor(old(log), |rs|, localId, isJetty)
      {
        Bounds();
        CounterDistance(tail, head);
        if ci == pi {
          break;
        }
        var r := FlushOne(localId, isJetty);
        rs := rs + [r];
      }
      Bounds();
      CounterDistance(tail, head);
    }

    /** `udma_reset_sw_u_jetty_queue`. */
    method Reset()
      requires Valid()
      modifies this
      ensures Valid() && log == [] && head == tail == 0 && !flushFlag
    {
      Bounds();
      hide Inv;
      hide BlockBase;
      InvEmpty(qbuf[..], wrid[..], cnt, limits);
      curr, pi, ci, flushFlag := 0, 0, 0, false;
      head, tail, log := 0, 0, [];
    }
  }

  /** Writing only a window of free blocks keeps the invariant and every block in use. */
  lemma PostFrame(buf: seq<byte>, ring: seq<byte>, wrid: seq<u64>, cnt: nat, l: Limits, log: seq<Entry>,
      head: nat, tail: nat, w: seq<byte>)
    requires Inv(buf, wrid, cnt, l, log, head, tail)
    requires |ring| == |buf| && |w| <= BLOCK * (cnt - (tail - head))
    requires forall i :: 0 <= i < |ring| ==> ring[i] == ByteAt(buf, BlockBase(tail, cnt), w, i)
    ensures Inv(ring, wrid, cnt, l, log, head, tail)
    ensures InUseSame(buf, ring, cnt, head, tail)
  {
    var base, nb := BlockBase(tail, cnt), cnt - (tail - head);
    WindowRead(buf, base, w, ring);
    OutsideSameWider(buf, ring, base, |w|, BLOCK * nb);
    forall k: nat | head <= k < tail
      ensures Block(ring, k, cnt) == Block(buf, k, cnt)
    {
      WindowSparesBlock(buf, ring, tail, nb, k, cnt);
    }
    InvFrame(buf, ring, wrid, cnt, l, log, head, tail);
  }

  ghost function Requests(log: seq<Entry>): (r: seq<Wr>)
    ensures |r| == |log|
  {
    seq(|log|, i requires 0 <= i < |log| => log[i].wr)
  }

  lemma RequestsAppend(log: seq<Entry>, log': seq<Entry>, wr: Wr)
    requires |log'| == |log| + 1 && log'[..|log|] == log && log'[|log|].wr == wr
    ensures Requests(log') == Requests(log) + [wr]
  {
  }

  lemma BlocksStay(a: seq<byte>, b: seq<byte>, c: seq<byte>, cnt: nat, head: nat, tail: nat, tail': nat)
    requires InUseSame(a, b, cnt, head, tail) && InUseSame(b, c, cnt, head, tail') && tail <= tail'
    ensures InUseSame(a, c, cnt, head, tail)
  {
  }

  /** No byte of the blocks in use differs. */
  ghost predicate InUseSame(a: seq<byte>, b: seq<byte>, cnt: nat, head: nat, tail: nat) {
    && 0 < cnt && |a| == |b| == BLOCK * cnt
    && forall k: nat :: head <= k < tail ==> Block(b, k, cnt) == Block(a, k, cnt)
  }

  /** The request can ever be taken and its blocks are free. */
  predicate Fits(wr: Wr, l: Limits, free: nat)
    requires WellFormed(wr)
  {
    Acceptable(wr, l) && Blocks(wr) <= free
  }

  lemma DirectInv(buf: seq<byte>, buf': seq<byte>, wrid: seq<u64>, cnt: nat, l: Limits, e: Entry, head: nat,
      tail: nat, idx: nat)
    requires Inv(buf, wrid, cnt, l, [e], head, tail) && e.start == head && idx < 0x1_0000
    requires var p := BlockBase(head, cnt); buf' == buf[p := idx % 256][p + 1 := idx / 256]
    ensures Inv(buf', wrid, cnt, l, [e.(bbIdx := idx)], head, tail)
  {
    DirectStored(buf, buf', cnt, e, idx);
    var log, log' := [e], [e.(bbIdx := idx)];
    assert EntryStored(buf, cnt, log[0]) && CtxStored(wrid, cnt, log[0], head);
    assert log[1..] == [] && log'[1..] == [];
  }

  /** The direct write changes the block index of the header and nothing else. */
  lemma DirectStored(buf: seq<byte>, buf': seq<byte>, cnt: nat, e: Entry, idx: nat)
    requires EntryStored(buf, cnt, e) && Blocks(e.wr) >= 1 && idx < 0x1_0000
    requires var p := BlockBase(e.start, cnt); buf' == buf[p := idx % 256][p + 1 := idx / 256]
    ensures EntryStored(buf', cnt, e.(bbIdx := idx))
  {
    var p, n := BlockBase(e.start, cnt), BLOCK * Blocks(e.wr);
    var w, w' := Linear(buf, p, n), Linear(buf', p, n);
    var h := HeaderOf(e.wr, OwnerBit(e.start, cnt), e.bbIdx);
    var h' := HeaderOf(e.wr, OwnerBit(e.start, cnt), idx);
    assert forall j :: 2 <= j < n ==> w'[j] == w[j];
    assert w'[48..] == w[48..];
    BodyOkFrom(w, w', e.wr);
    assert h' == h.(bbIdx := idx);
    forall j | 0 <= j < 48
      ensures w'[j] == Encode(h')[j]
    {
      assert w[0..48][j] == Encode(h)[j];
      EncodeIndex(h, idx, j);
    }
    assert w'[0..48] == Encode(h');
  }

  lemma EncodeIndex(h: Header, idx: nat, j: nat)
    requires HeaderOk(h) && idx < 0x1_0000 && j < 48
    ensures Encode(h.(bbIdx := idx))[j] == if j == 0 then idx % 256 else if j == 1 then idx / 256 else Encode(h)[j]
  {
    var h' := h.(bbIdx := idx);
    var f, f' := EncodeWords(h), EncodeWords(h');
    assert f'[2..] == f[2..];
    assert Encode(h')[16..] == Encode(h)[16..];
    if j < 16 {
      assert 2 <= j ==> f'[2..][j - 2] == f[2..][j - 2];
    } else {
      assert Encode(h')[16..][j - 16] == Encode(h)[16..][j - 16];
    }
  }

  // ---------------------------------------------------------------- completions on wrapped counters

  lemma RetireStep(buf: seq<byte>, wrid: seq<u64>, cnt: nat, l: Limits, log: seq<Entry>, head: nat, tail: nat, k: nat)
    requires Inv(buf, wrid, cnt, l, log, head, tail) && head <= k < tail
    ensures Inv(buf, wrid, cnt, l, Retire(log, k + 1), k + 1, tail)
    ensures var i := OwnerIndex(log, l, head, tail, k);
            && wrid[Slot(k, cnt)] == log[i].wr.userCtx
            && Retire(log, k + 1) == if k + 1 == End(log[i]) then log[i + 1..] else log[i..]
  {
    hide EntryStored;
    hide Slot;
    var i := OwnerIndex(log, l, head, tail, k);
    assert CtxStored(wrid, cnt, log[i], head);
    RetireOwner(log, l, head, tail, k);
    InvRetire(buf, wrid, cnt, l, log, head, tail, k + 1);
  }

  /** `(entry_idx - ci) & mask` is the distance to the named block. */
  predicate IndexExact(k: nat, head: nat, cnt: nat)
    requires 0 < cnt
  {
    Slot(Sub32(k % 0x1_0000, Wrap32(head)), cnt) == k - head
  }

  /** ... however often the counters wrapped. */
  lemma CompletionIndex(k: nat, head: nat, cnt: nat)
    requires RingCount(cnt) && 0 < cnt <= 0x1_0000 && head <= k < head + cnt
    ensures IndexExact(k, head, cnt)
  {
    var a, b := RingFactors(cnt);
    var x := k % 0x1_0000 - head % M32;
    CounterSlot(x, cnt);
    LowBits(x, k, head, cnt, a, b);
  }

  lemma RingFactors(cnt: nat) returns (a: nat, b: nat)
    requires RingCount(cnt) && cnt <= 0x1_0000
    ensures cnt * a == 0x1_0000 && cnt * b == M32
  {
    var j: nat :| j <= 31 && cnt == Pow2(j);
    Pow2Values();
    if j > 16 {
      Pow2Monotonic(17, j);
    }
    Pow2Add(j, 16 - j);
    Pow2Add(j, 32 - j);
    a, b := Pow2(16 - j), Pow2(32 - j);
  }

  lemma LowBits(x: int, k: nat, head: nat, cnt: nat, a: nat, b: nat)
    requires 0 < cnt && cnt * a == 0x1_0000 && cnt * b == M32
    requires x == k % 0x1_0000 - head % M32 && head <= k < head + cnt
    ensures x % cnt == k - head
  {
    var p, q := k / 0x1_0000, head / M32;
    assert x == k - 0x1_0000 * p - (head - M32 * q);
    var t := b * q - a * p;
    assert t * cnt == (cnt * b) * q - (cnt * a) * p;
    DivModUnique(x, t, k - head, cnt);
  }

  /** The index is exact for every outstanding block exactly when the ring has at most 2^16 blocks:
      on a larger ring block 65536 is mistaken for block 0. */
  lemma CompletionIndexNeedsSmallRing(cnt: nat)
    requires RingCount(cnt) && 0 < cnt
    ensures cnt <= 0x1_0000 <==> forall k: nat, head: nat :: head <= k < head + cnt ==> IndexExact(k, head, cnt)
  {
    if cnt <= 0x1_0000 {
      forall k: nat, head: nat | head <= k < head + cnt
        ensures IndexExact(k, head, cnt)
      {
        CompletionIndex(k, head, cnt);
      }
    } else {
      DivModUnique(0, 0, 0, cnt);
      assert !IndexExact(0x1_0000, 0, cnt);
    }
  }

  // ---------------------------------------------------------------- flush records

  datatype FlushRecord = FlushRecord(cr: Cr, userCtx: u64, localId: u32, isJetty: bool)

  /** What the flush owes for one posted request. */
  ghost function RecordFor(e: Entry, localId: u32, isJetty: bool): FlushRecord
    requires WellFormed(e.wr)
  {
    FlushRecord(ExpectedCr(e.wr), e.wr.userCtx, localId, isJetty)
  }

  /** ... and for the oldest `n` requests of a log, in posting order. */
  ghost function RecordsFor(log: seq<Entry>, n: nat, localId: u32, isJetty: bool): seq<FlushRecord>
    requires n <= |log| && forall i :: 0 <= i < |log| ==> WellFormed(log[i].wr)
  {
    seq(n, i requires 0 <= i < n => RecordFor(log[i], localId, isJetty))
  }

  /** The element loop of `fill_cr_by_wqe_ctl`. */
  method FillCr(w: seq<byte>) returns (cr: Cr)
    requires Decodable(w)
    ensures cr == DecodeCr(w)
  {
    if InlineBitOf(w) {
      return Cr(InlineLenOf(w), RmtIdOf(w), TpIdOf(w), DecodeData(w));
    }
    var ctl, n := CtlLen(w[5]), w[11];
    var total, off := 0, ctl;
    for i := 0 to n
      invariant off == ctl + 16 * i
      invariant total + StoredLen(w, off, n - i) == StoredLen(w, ctl, n)
    {
      total := total + FromLe(w[off..off + 4]);
      off := off + 16;
    }
    cr := Cr(if total > UINT32_MAX then UINT32_MAX else total, RmtIdOf(w), TpIdOf(w), DecodeData(w));
  }

  /** The four blocks from the consumer position decode to the oldest request. */
  lemma OldestStored(buf: seq<byte>, wrid: seq<u64>, cnt: nat, l: Limits, log: seq<Entry>, head: nat, tail: nat)
    requires Inv(buf, wrid, cnt, l, log, head, tail) && log != [] && log[0].start == head
    ensures var tmp := Linear(buf, BlockBase(head, cnt), BLOCK * MAX_BB);
            && Decodable(tmp) && WellFormed(log[0].wr)
            && DecodeCr(tmp) == ExpectedCr(log[0].wr) && StoredBlocks(tmp) == Blocks(log[0].wr)
    ensures wrid[Slot(head, cnt)] == log[0].wr.userCtx
  {
    var e, base := log[0], BlockBase(head, cnt);
    var tmp := Linear(buf, base, BLOCK * MAX_BB);
    EntryWithin(log, l, head, tail, 0);
    assert EntryStored(buf, cnt, e) && CtxStored(wrid, cnt, e, head);
    var w := Linear(buf, base, BLOCK * Blocks(e.wr));
    assert tmp[..|w|] == w;
    ContentExtends(w, tmp, e.wr, OwnerBit(head, cnt), e.bbIdx);
    FlushRoundTrip(tmp, e.wr, l, OwnerBit(head, cnt), e.bbIdx);
    StoredBlocksAgree(tmp, e.wr, l, OwnerBit(head, cnt), e.bbIdx);
  }
}

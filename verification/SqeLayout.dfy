/** The memory layout of send work-queue entries (WQEs): what a work request looks like in the
    64-byte blocks of the send ring, the three block counts the driver computes for it, and what
    a flush reads back out of the bytes. */
module SqeLayout {
  import opened Words

  // ---------------------------------------------------------------- little-endian integers

  function LeBytes(x: nat, n: nat): (s: seq<byte>)
    ensures |s| == n
  {
    if n == 0 then [] else [x % 256] + LeBytes(x / 256, n - 1)
  }

  function FromLe(s: seq<byte>): nat {
    if s == [] then 0 else s[0] + 256 * FromLe(s[1..])
  }

  function Pow256(n: nat): (r: nat)
    ensures r > 0
  {
    if n == 0 then 1 else 256 * Pow256(n - 1)
  }

  lemma {:induction false} LeRoundTrip(x: nat, n: nat)
    requires x < Pow256(n)
    ensures FromLe(LeBytes(x, n)) == x
  {
    if n > 0 {
      LeRoundTrip(x / 256, n - 1);
      assert LeBytes(x, n)[1..] == LeBytes(x / 256, n - 1);
    }
  }

  lemma {:induction false} FromLeConcat(a: seq<byte>, b: seq<byte>)
    ensures FromLe(a + b) == FromLe(a) + Pow256(|a|) * FromLe(b)
  {
    if a == [] {
      assert a + b == b;
    } else {
      FromLeConcat(a[1..], b);
      assert (a + b)[1..] == a[1..] + b;
      assert 256 * (Pow256(|a| - 1) * FromLe(b)) == Pow256(|a|) * FromLe(b);
    }
  }

  lemma Pow256Values()
    ensures Pow256(1) == 0x100 && Pow256(2) == 0x1_0000 && Pow256(3) == 0x100_0000
    ensures Pow256(4) == M32 && Pow256(8) == M64
  {
  }

  lemma Le32RoundTrip(x: u32)
    ensures FromLe(LeBytes(x, 4)) == x
  {
    Pow256Values();
    LeRoundTrip(x, 4);
  }

  lemma Le64RoundTrip(x: u64)
    ensures FromLe(LeBytes(x, 8)) == x
  {
    Pow256Values();
    LeRoundTrip(x, 8);
  }

  /** Two stored 32-bit words read back as one 64-bit word. */
  lemma Le64FromHalves(lo: u32, hi: u32)
    ensures FromLe(LeBytes(lo, 4) + LeBytes(hi, 4)) == lo + M32 * hi
  {
    FromLeConcat(LeBytes(lo, 4), LeBytes(hi, 4));
    Le32RoundTrip(lo);
    Le32RoundTrip(hi);
    Pow256Values();
  }

  // ---------------------------------------------------------------- work requests

  datatype UrmaOp =
    | OpWrite | OpWriteImm | OpWriteNotify | OpRead | OpCas | OpFadd
    | OpSend | OpSendImm | OpSendInvalidate | OpNop | OpOther

  datatype Target = Target(id: u32, tpn: u32, eid: seq<byte>, kind: byte, tokenValid: bool, tokenValue: u32)

  datatype Segment = Segment(tid: u32, tokenValid: bool, tokenValue: u32)

  /** A local scatter/gather element; `data` is the memory `addr` points to. */
  datatype Sge = Sge(addr: u64, len: u32, data: seq<byte>)

  datatype Remote = Remote(addr: u64, seg: Segment)

  /** A send work request.  `local` is the list the driver gathers from (or scatters to, for a
      read), `remote` the other side.  `operand` and `compare` are the bytes an atomic carries. */
  datatype Wr = Wr(
    op: UrmaOp, flag: u32, userCtx: u64, target: Target,
    local: seq<Sge>, remote: seq<Remote>, hint: byte, imm: u64, invalid: Segment,
    operand: seq<byte>, compare: seq<byte>)

  const OPC_SEND: byte := 0x00
  const OPC_SEND_WITH_IMM: byte := 0x01
  const OPC_SEND_WITH_INVALID: byte := 0x02
  const OPC_WRITE: byte := 0x03
  const OPC_WRITE_WITH_IMM: byte := 0x04
  const OPC_WRITE_WITH_NOTIFY: byte := 0x05
  const OPC_READ: byte := 0x06
  const OPC_CAS: byte := 0x07
  const OPC_FAA: byte := 0x0b
  const OPC_NOP: byte := 0x11
  const OPC_INVALID: byte := 0x12

  const WQEBB: nat := 64
  const SGE_SIZE: nat := 16
  const MAX_BB: nat := 4
  const UINT32_MAX: u32 := 0xFFFF_FFFF

  function UdmaOpcode(op: UrmaOp): byte {
    match op
    case OpWrite => OPC_WRITE
    case OpWriteImm => OPC_WRITE_WITH_IMM
    case OpWriteNotify => OPC_WRITE_WITH_NOTIFY
    case OpRead => OPC_READ
    case OpCas => OPC_CAS
    case OpFadd => OPC_FAA
    case OpSend => OPC_SEND
    case OpSendImm => OPC_SEND_WITH_IMM
    case OpSendInvalidate => OPC_SEND_WITH_INVALID
    case OpNop => OPC_NOP
    case OpOther => OPC_INVALID
  }

  predicate IsSend(op: UrmaOp) { op.OpSend? || op.OpSendImm? || op.OpSendInvalidate? }

  predicate IsWrite(op: UrmaOp) { op.OpWrite? || op.OpWriteImm? || op.OpWriteNotify? }

  predicate IsAtomic(op: UrmaOp) { op.OpCas? || op.OpFadd? }

  /** Bit 6 of the flag word. */
  predicate InlineFlag(wr: Wr) { (wr.flag / 64) % 2 == 1 }

  /** The payload travels inside the WQE. */
  predicate CarriesInline(wr: Wr) { InlineFlag(wr) && (IsSend(wr.op) || IsWrite(wr.op)) }

  function SumLen(sges: seq<Sge>): nat {
    if sges == [] then 0 else sges[0].len + SumLen(sges[1..])
  }

  function NonEmpty(sges: seq<Sge>): (r: seq<Sge>)
    ensures |r| <= |sges|
  {
    if sges == [] then []
    else if sges[0].len == 0 then NonEmpty(sges[1..])
    else [sges[0]] + NonEmpty(sges[1..])
  }

  lemma {:induction false} NonEmptySum(sges: seq<Sge>)
    ensures SumLen(NonEmpty(sges)) == SumLen(sges)
  {
    if sges != [] {
      NonEmptySum(sges[1..]);
      assert ([sges[0]] + NonEmpty(sges[1..]))[1..] == NonEmpty(sges[1..]);
    }
  }

  function Payload(sges: seq<Sge>): seq<byte> {
    if sges == [] then [] else sges[0].data + Payload(sges[1..])
  }

  /** What a caller of the driver hands over: the addresses in the request are valid for the
      operation, an inline element points to `len` bytes, and the inline lengths do not add up to
      2^32 or more (see InlineCheckExact). */
  predicate WellFormed(wr: Wr) {
    && |wr.target.eid| == 16
    && (CarriesInline(wr) ==>
          SumLen(wr.local) < M32 && forall i :: 0 <= i < |wr.local| ==> |wr.local[i].data| == wr.local[i].len)
    && (IsWrite(wr.op) || wr.op.OpRead? ==> |wr.remote| >= 1)
    && (wr.op.OpWriteNotify? ==> |wr.remote| >= 2)
    && (IsAtomic(wr.op) ==>
          |wr.local| == 1 && |wr.remote| == 1 && |wr.operand| == wr.local[0].len && |wr.compare| == wr.local[0].len)
  }

  // ---------------------------------------------------------------- control segment

  datatype Header = Header(
    bbIdx: nat, flag: nat, tokenEn: bool, kind: nat, owner: bool, hint: byte, opcode: byte,
    inlineLen: nat, tpId: nat, sgeNum: nat, rmtId: nat, eid: seq<byte>, token: u32, addrL: u32, addrH: u32)

  /** Every field fits its bit-field. */
  ghost predicate HeaderOk(h: Header) {
    && h.bbIdx < 0x1_0000 && h.flag < 128 && h.kind < 4 && h.inlineLen < 1024
    && h.tpId < 0x100_0000 && h.sgeNum < 256 && h.rmtId < 0x10_0000 && |h.eid| == 16
  }

  function Bit(b: bool): nat { if b then 1 else 0 }

  // Bit-field reads on the first 16 bytes of a stored control segment.

  function InlineLenOf(w: seq<byte>): nat
    requires |w| >= 48
  {
    w[6] as int / 64 + 4 * w[7] as int
  }

  function TpIdOf(w: seq<byte>): nat
    requires |w| >= 48
  {
    w[8] as int + 0x100 * w[9] as int + 0x1_0000 * w[10] as int
  }

  function RmtIdOf(w: seq<byte>): nat
    requires |w| >= 48
  {
    w[12] as int + 0x100 * w[13] as int + 0x1_0000 * (w[14] as int % 16)
  }

  predicate InlineBitOf(w: seq<byte>)
    requires |w| >= 48
  {
    (w[2] / 64) % 2 == 1
  }

  /** The 48 bytes of `struct udma_jfs_sqe_ctl`, reserved fields zero. */
  function Encode(h: Header): (s: seq<byte>)
    requires HeaderOk(h)
    ensures |s| == 48
  {
    EncodeWords(h) + h.eid + LeBytes(h.token, 4) + [0, 0, 0, 0] + LeBytes(h.addrL, 4) + LeBytes(h.addrH, 4)
  }

  /** The first four words, packed bit-fields. */
  function EncodeWords(h: Header): (s: seq<byte>)
    requires HeaderOk(h)
    ensures |s| == 16
  {
    [h.bbIdx % 256, h.bbIdx / 256, h.flag, 16 * Bit(h.tokenEn) + 32 * h.kind + 128 * Bit(h.owner),
     h.hint, h.opcode, 64 * (h.inlineLen % 4), h.inlineLen / 4]
    + ThreeBytes(h.tpId) + [h.sgeNum] + ThreeBytes(h.rmtId) + [0]
  }

  function ThreeBytes(x: nat): (s: seq<byte>)
    requires x < 0x100_0000
    ensures |s| == 3 && s[0] as int + 0x100 * s[1] as int + 0x1_0000 * s[2] as int == x
    ensures x < 0x10_0000 ==> s[2] < 16
  {
    [x % 256, x / 256 % 256, x / 0x1_0000]
  }

  /** Encoding then reading the packed fields gives them back. */
  lemma EncodeRoundTrip(h: Header)
    requires HeaderOk(h)
    ensures var s := Encode(h);
            && s[2] == h.flag && s[5] == h.opcode && s[11] == h.sgeNum
            && InlineLenOf(s) == h.inlineLen && TpIdOf(s) == h.tpId && RmtIdOf(s) == h.rmtId
            && s[40..44] == LeBytes(h.addrL, 4) && s[44..48] == LeBytes(h.addrH, 4)
  {
    var s, f := Encode(h), EncodeWords(h);
    assert forall i :: 0 <= i < 16 ==> s[i] == f[i];
    assert f[8] == ThreeBytes(h.tpId)[0] && f[9] == ThreeBytes(h.tpId)[1] && f[10] == ThreeBytes(h.tpId)[2];
    assert f[12] == ThreeBytes(h.rmtId)[0] && f[13] == ThreeBytes(h.rmtId)[1] && f[14] == ThreeBytes(h.rmtId)[2];
  }

  predicate HasTarget(op: UrmaOp) { !op.OpNop? && !op.OpOther? }

  function SgeNumFor(wr: Wr): nat {
    if !HasTarget(wr.op) || CarriesInline(wr) then 0
    else if IsAtomic(wr.op) then 1
    else |NonEmpty(wr.local)|
  }

  /** The remote side named in the header: the target jetty of a send, the segment otherwise. */
  function PeerOf(wr: Wr): (nat, bool, u32)
    requires WellFormed(wr)
  {
    if !HasTarget(wr.op) then (0, false, 0)
    else if IsSend(wr.op) then (wr.target.id, wr.target.tokenValid, wr.target.tokenValue)
    else (wr.remote[0].seg.tid, wr.remote[0].seg.tokenValid, wr.remote[0].seg.tokenValue)
  }

  /** The last two header words: remote address, immediate data or the token to invalidate. */
  function AddrWords(wr: Wr): (u32, u32)
    requires WellFormed(wr)
  {
    match wr.op
    case OpSend | OpNop | OpOther => (0, 0)
    case OpSendImm => (wr.imm % M32, wr.imm / M32)
    case OpSendInvalidate => (wr.invalid.tid, wr.invalid.tokenValue)
    case _ => (wr.remote[0].addr % M32, wr.remote[0].addr / M32)
  }

  /** The control segment a posted request must have in memory. */
  function HeaderOf(wr: Wr, owner: bool, bbIdx: nat): Header
    requires WellFormed(wr)
  {
    var t := HasTarget(wr.op);
    var (peer, tokenEn, token) := PeerOf(wr);
    var (lo, hi) := AddrWords(wr);
    Header(bbIdx, wr.flag % 128, tokenEn, if t then wr.target.kind % 4 else 0, owner,
           if IsSend(wr.op) || IsWrite(wr.op) then wr.hint else 0, UdmaOpcode(wr.op),
           if CarriesInline(wr) then SumLen(wr.local) else 0,
           if t then wr.target.tpn % 0x100_0000 else 0,
           SgeNumFor(wr), peer % 0x10_0000,
           if t then wr.target.eid else seq(16, _ => 0), token, lo, hi)
  }

  // ---------------------------------------------------------------- whole WQEs

  function CtlLen(opcode: byte): nat {
    if opcode == OPC_WRITE_WITH_IMM then 64
    else if opcode == OPC_WRITE_WITH_NOTIFY then 80
    else 48
  }

  function CeilDiv(a: nat, b: nat): nat
    requires b > 0
  {
    (a + b - 1) / b
  }

  /** Control segment plus payload. */
  function WqeBytes(wr: Wr): nat {
    CtlLen(UdmaOpcode(wr.op)) + if CarriesInline(wr) then SumLen(wr.local) else SGE_SIZE * |NonEmpty(wr.local)|
  }

  /** The number of ring blocks a request occupies. */
  function Blocks(wr: Wr): (n: nat)
    ensures n >= 1
  {
    if wr.op.OpNop? then 1
    else if IsAtomic(wr.op) then 2
    else CeilDiv(WqeBytes(wr), WQEBB)
  }

  predicate BytesAt(w: seq<byte>, off: nat, bytes: seq<byte>) {
    off + |bytes| <= |w| && w[off..off + |bytes|] == bytes
  }

  /** A stored `struct udma_wqe_sge`; its token field is not written by the driver. */
  predicate SgeAt(w: seq<byte>, off: nat, sge: Sge) {
    BytesAt(w, off, LeBytes(sge.len, 4)) && BytesAt(w, off + 8, LeBytes(sge.addr, 8)) && off + 16 <= |w|
  }

  /** A stored `struct udma_token_info`: 20 bits of id, 12 untouched bits, 32 bits of value. */
  predicate TokenAt(w: seq<byte>, off: nat, id: u32, value: u32) {
    && off + 8 <= |w|
    && w[off] == id % 256 && w[off + 1] == id / 256 % 256 && w[off + 2] % 16 == id / 0x1_0000 % 16
    && BytesAt(w, off + 4, LeBytes(value, 4))
  }

  ghost predicate SgesAt(w: seq<byte>, off: nat, sges: seq<Sge>) {
    forall i :: 0 <= i < |sges| ==> SgeAt(w, off + 16 * i, sges[i])
  }

  /** What lies behind the 48-byte header. */
  ghost predicate BodyOk(w: seq<byte>, wr: Wr)
    requires WellFormed(wr)
  {
    var ctl := CtlLen(UdmaOpcode(wr.op));
    && (CarriesInline(wr) ==> BytesAt(w, ctl, Payload(wr.local)))
    && ((IsSend(wr.op) || IsWrite(wr.op) || wr.op.OpRead?) && !CarriesInline(wr) ==> SgesAt(w, ctl, NonEmpty(wr.local)))
    && (wr.op.OpWriteImm? ==> BytesAt(w, 48, LeBytes(wr.imm, 8)) && TokenAt(w, 56, wr.target.id, wr.target.tokenValue))
    && (wr.op.OpWriteNotify? ==>
          && TokenAt(w, 48, wr.remote[1].seg.tid, wr.remote[1].seg.tokenValue)
          && BytesAt(w, 56, LeBytes(wr.remote[1].addr, 8)) && BytesAt(w, 64, LeBytes(wr.imm, 8)))
    && (IsAtomic(wr.op) ==> SgeAt(w, 48, wr.local[0]) && BytesAt(w, 64, wr.operand))
    && (wr.op.OpCas? ==> BytesAt(w, 64 + |wr.operand|, wr.compare))
  }

  /** `w`, the bytes of a WQE in ring order, hold request `wr`. */
  ghost predicate Content(w: seq<byte>, wr: Wr, owner: bool, bbIdx: nat)
    requires WellFormed(wr)
  {
    && HeaderOk(HeaderOf(wr, owner, bbIdx))
    && BytesAt(w, 0, Encode(HeaderOf(wr, owner, bbIdx)))
    && BodyOk(w, wr)
  }

  // ---------------------------------------------------------------- acceptance rules

  const MAX_SGE_READ: nat := 6
  const MAX_SGE_NOTIFY: nat := 11
  const MAX_SGE_WRITE_IMM: nat := 12
  const WRITE_IMM_INLINE_SIZE: nat := 192
  const WRITE_NTF_INLINE_SIZE: nat := 176

  /** Limits of a queue.  The device caps bound them: 13 elements or 208 inline bytes fill four
      blocks exactly. */
  datatype Limits = Limits(maxSge: nat, maxInline: nat)

  predicate LimitsOk(l: Limits) { l.maxSge <= 13 && l.maxInline <= 208 }

  /** `udma_check_sge_num_and_opcode`, true when the request passes. */
  predicate SgeCountOk(wr: Wr, l: Limits) {
    match wr.op
    case OpOther => false
    case OpCas | OpFadd => l.maxSge != 0
    case OpRead => |wr.local| <= MAX_SGE_READ && |wr.local| <= l.maxSge
    case OpWriteNotify => |wr.local| <= MAX_SGE_NOTIFY && |wr.local| <= l.maxSge
    case OpWriteImm => |wr.local| <= MAX_SGE_WRITE_IMM && |wr.local| <= l.maxSge
    case OpWrite | OpSend | OpSendImm | OpSendInvalidate | OpNop => |wr.local| <= l.maxSge
  }

  function MaxInline(opcode: byte, maxInline: nat): nat {
    if opcode == OPC_WRITE_WITH_IMM then Min(maxInline, WRITE_IMM_INLINE_SIZE)
    else if opcode == OPC_WRITE_WITH_NOTIFY then Min(maxInline, WRITE_NTF_INLINE_SIZE)
    else maxInline
  }

  predicate AtomicLenOk(wr: Wr)
    requires |wr.local| >= 1
  {
    wr.local[0].len == 4 || wr.local[0].len == 8 || (wr.local[0].len == 16 && wr.op.OpCas?)
  }

  /** Everything but space: the requests the queue can ever take. */
  predicate Acceptable(wr: Wr, l: Limits)
    requires WellFormed(wr)
  {
    && SgeCountOk(wr, l)
    && (CarriesInline(wr) ==> SumLen(wr.local) <= MaxInline(UdmaOpcode(wr.op), l.maxInline))
    && (IsAtomic(wr.op) ==> AtomicLenOk(wr))
  }

  /** An acceptable request fits four blocks, its header fits its bit-fields, and its bytes fit its
      blocks. */
  lemma AcceptableFits(wr: Wr, l: Limits, owner: bool, bbIdx: nat)
    requires WellFormed(wr) && LimitsOk(l) && Acceptable(wr, l) && bbIdx < 0x1_0000
    ensures 1 <= Blocks(wr) <= MAX_BB
    ensures HeaderOk(HeaderOf(wr, owner, bbIdx))
    ensures !wr.op.OpNop? && !IsAtomic(wr.op) ==> WqeBytes(wr) <= 64 * Blocks(wr)
  {
    WqeBytesBound(wr, l);
    CeilDivBound(WqeBytes(wr));
  }

  lemma WqeBytesBound(wr: Wr, l: Limits)
    requires WellFormed(wr) && LimitsOk(l) && Acceptable(wr, l)
    ensures 48 <= WqeBytes(wr) <= 256
    ensures SgeNumFor(wr) <= 13 && (CarriesInline(wr) ==> SumLen(wr.local) <= 208)
  {
  }

  lemma CeilDivBound(n: nat)
    requires 1 <= n <= 256
    ensures 1 <= CeilDiv(n, WQEBB) <= 4 && n <= 64 * CeilDiv(n, WQEBB)
  {
  }

  // ---------------------------------------------------------------- the three block counts

  /** `sq_cal_wqebb_num`: 32-bit arithmetic, so zero elements wrap through 2^32. */
  function CalWqebbNum(ctl: u32, sgeNum: u32): u32 {
    Add32(Add32(ctl, (Sub32(sgeNum, 1) * 16) % M32) / 64, 1)
  }

  function InlineWqebbNum(ctl: u32, len: u32): u32 {
    Add32(Sub32(Add32(ctl, len), 1) / 64, 1)
  }

  /** `get_wqebb_cnt` on the bytes of a stored header. */
  function StoredBlocks(w: seq<byte>): u32
    requires |w| >= 48
  {
    HeaderBlocks(w[5], w[2], InlineLenOf(w), w[11])
  }

  /** The 32-bit formula on elements is the ceiling of the byte count, also for no elements. */
  lemma CalWqebbNumIsCeiling(ctl: nat, n: nat)
    requires ctl == 48 || ctl == 64 || ctl == 80
    requires n <= 255
    ensures CalWqebbNum(ctl, n) == CeilDiv(ctl + SGE_SIZE * n, WQEBB)
  {
    var m := ctl / 16 + n;
    assert ctl + SGE_SIZE * n == 16 * m;
    SixteenthsCeiling(m);
    WrappedElementBytes(ctl, n);
  }

  lemma WrappedElementBytes(ctl: nat, n: nat)
    requires 48 <= ctl <= 80 && n <= 255
    ensures Add32(ctl, (Sub32(n, 1) * 16) % M32) == ctl + 16 * n - 16
  {
  }

  lemma SixteenthsCeiling(m: nat)
    requires m >= 1
    ensures (16 * m - 16) / 64 + 1 == CeilDiv(16 * m, 64)
  {
  }

  lemma InlineWqebbNumIsCeiling(ctl: nat, len: nat)
    requires 48 <= ctl <= 80 && len < 1024
    ensures InlineWqebbNum(ctl, len) == CeilDiv(ctl + len, WQEBB)
  {
  }

  /** The count derived from the stored header is the number of blocks the request took. */
  lemma StoredBlocksAgree(w: seq<byte>, wr: Wr, l: Limits, owner: bool, bbIdx: nat)
    requires WellFormed(wr) && LimitsOk(l) && Acceptable(wr, l) && bbIdx < 0x1_0000
    requires Content(w, wr, owner, bbIdx)
    ensures |w| >= 48 && StoredBlocks(w) == Blocks(wr)
  {
    AcceptableFits(wr, l, owner, bbIdx);
    var h := HeaderOf(wr, owner, bbIdx);
    HeaderBytes(w, h);
    HeaderBlocksAgree(wr, l, owner, bbIdx);
  }

  /** The count as a function of the header fields. */
  function HeaderBlocks(opcode: byte, flag: nat, inlineLen: u32, sgeNum: u32): u32 {
    var ctl := CtlLen(opcode);
    if opcode <= OPC_WRITE_WITH_NOTIFY && (flag / 64) % 2 == 1 then InlineWqebbNum(ctl, inlineLen)
    else if opcode == OPC_NOP then 1
    else CalWqebbNum(ctl, if opcode == OPC_CAS || opcode == OPC_FAA then 2 else sgeNum)
  }

  lemma HeaderBlocksAgree(wr: Wr, l: Limits, owner: bool, bbIdx: nat)
    requires WellFormed(wr) && LimitsOk(l) && Acceptable(wr, l) && bbIdx < 0x1_0000
    requires HeaderOk(HeaderOf(wr, owner, bbIdx))
    ensures var h := HeaderOf(wr, owner, bbIdx); HeaderBlocks(h.opcode, h.flag, h.inlineLen, h.sgeNum) == Blocks(wr)
  {
    var h := HeaderOf(wr, owner, bbIdx);
    var ctl := CtlLen(h.opcode);
    FlagBit(wr.flag);
    if CarriesInline(wr) {
      InlineWqebbNumIsCeiling(ctl, h.inlineLen);
    } else if IsAtomic(wr.op) {
      CalWqebbNumIsCeiling(ctl, 2);
    } else if !wr.op.OpNop? {
      CalWqebbNumIsCeiling(ctl, h.sgeNum);
    }
  }

  /** Truncating the flag word to its 7-bit field keeps the inline bit. */
  lemma FlagBit(flag: nat)
    ensures ((flag % 128) / 64) % 2 == (flag / 64) % 2
  {
  }

  lemma HeaderBytes(w: seq<byte>, h: Header)
    requires HeaderOk(h)
    requires BytesAt(w, 0, Encode(h))
    ensures |w| >= 48
    ensures w[2] == h.flag && w[5] == h.opcode && w[11] == h.sgeNum
    ensures InlineLenOf(w) == h.inlineLen && TpIdOf(w) == h.tpId && RmtIdOf(w) == h.rmtId
    ensures w[40..44] == LeBytes(h.addrL, 4) && w[44..48] == LeBytes(h.addrH, 4)
  {
    var s := Encode(h);
    EncodeRoundTrip(h);
    assert forall i :: 0 <= i < 48 ==> w[i] == s[i] by {
      assert w[0..48] == s;
      assert forall i :: 0 <= i < 48 ==> w[0..48][i] == w[i];
    }
    assert w[40..44] == s[40..44];
    assert w[44..48] == s[44..48];
  }

  // ---------------------------------------------------------------- flush: bytes back to records

  datatype CrData = NoData | ImmData(value: u64) | InvalidToken(id: nat, token: u32)

  /** The part of a completion record that a flush reads out of the WQE bytes. */
  datatype Cr = Cr(completionLen: u32, remoteId: nat, tpn: nat, data: CrData)

  /** Sum of the length fields of `n` stored elements. */
  function StoredLen(w: seq<byte>, off: nat, n: nat): nat
    requires off + 16 * n <= |w|
    decreases n
  {
    if n == 0 then 0 else FromLe(w[off..off + 4]) + StoredLen(w, off + 16, n - 1)
  }

  predicate Decodable(w: seq<byte>) {
    && |w| == 64 * MAX_BB
    && (InlineBitOf(w) || CtlLen(w[5]) + 16 * w[11] as int <= |w|)
  }

  function DecodeData(w: seq<byte>): CrData
    requires |w| == 64 * MAX_BB
  {
    var opcode := w[5];
    Word64Bound(w, 40);
    Word64Bound(w, 48);
    Word32Bound(w, 44);
    if opcode == OPC_SEND_WITH_IMM then ImmData(FromLe(w[40..48]))
    else if opcode == OPC_SEND_WITH_INVALID then InvalidToken(FromLe(w[40..44]) % 0x10_0000, FromLe(w[44..48]))
    else if opcode == OPC_WRITE_WITH_IMM then ImmData(FromLe(w[48..56]))
    else NoData
  }

  /** `fill_cr_by_wqe_ctl`. */
  function DecodeCr(w: seq<byte>): Cr
    requires Decodable(w)
  {
    Cr(if InlineBitOf(w) then InlineLenOf(w) else Min(StoredLen(w, CtlLen(w[5]), w[11]), UINT32_MAX),
       RmtIdOf(w), TpIdOf(w), DecodeData(w))
  }

  lemma {:induction false} FromLeBound(s: seq<byte>)
    ensures FromLe(s) < Pow256(|s|)
  {
    if s != [] {
      FromLeBound(s[1..]);
    }
  }

  lemma Word64Bound(w: seq<byte>, off: nat)
    requires off + 8 <= |w|
    ensures FromLe(w[off..off + 8]) < M64
  {
    FromLeBound(w[off..off + 8]);
    Pow256Values();
  }

  lemma Word32Bound(w: seq<byte>, off: nat)
    requires off + 4 <= |w|
    ensures FromLe(w[off..off + 4]) < M32
  {
    FromLeBound(w[off..off + 4]);
    Pow256Values();
  }

  /** What a flush owes the poster of `wr`, said of the request alone. */
  function ExpectedCr(wr: Wr): Cr
    requires WellFormed(wr)
  {
    Cr(ReportedLen(wr),
       if wr.op.OpNop? || wr.op.OpOther? then 0
       else if IsSend(wr.op) then wr.target.id % 0x10_0000
       else wr.remote[0].seg.tid % 0x10_0000,
       if wr.op.OpNop? || wr.op.OpOther? then 0 else wr.target.tpn % 0x100_0000,
       if wr.op.OpSendImm? || wr.op.OpWriteImm? then ImmData(wr.imm)
       else if wr.op.OpSendInvalidate? then InvalidToken(wr.invalid.tid % 0x10_0000, wr.invalid.tokenValue)
       else NoData)
  }

  function ReportedLen(wr: Wr): u32
    requires WellFormed(wr)
  {
    if CarriesInline(wr) then SumLen(wr.local)
    else if InlineFlag(wr) || wr.op.OpNop? || wr.op.OpOther? then 0
    else Min(SumLen(wr.local), UINT32_MAX)
  }

  /** The number of bytes the request moves, capped at the width of the report. */
  function TransferLen(wr: Wr): u32 {
    if wr.op.OpNop? || wr.op.OpOther? then 0 else Min(SumLen(wr.local), UINT32_MAX)
  }

  /** The flushed length is the length of the request exactly unless a read or an atomic of non-zero
      length carries the inline flag: the flag makes the flush read the (zero) inline length. */
  lemma FlushedLengthExact(wr: Wr)
    requires WellFormed(wr)
    ensures ExpectedCr(wr).completionLen == TransferLen(wr)
            <==> !(InlineFlag(wr) && (wr.op.OpRead? || IsAtomic(wr.op))) || SumLen(wr.local) == 0
  {
  }

  /** Such a request exists, and the queue takes it: a 5-byte read with flag 0x40 is flushed with length 0. */
  lemma FlushedLengthFails()
    ensures var wr := Wr(OpRead, 0x40, 7, Target(1, 2, seq(16, _ => 0), 0, false, 0), [Sge(4096, 5, [])],
                         [Remote(8192, Segment(3, false, 0))], 0, 0, Segment(0, false, 0), [], []);
            && WellFormed(wr) && Acceptable(wr, Limits(13, 208))
            && ExpectedCr(wr).completionLen == 0 && TransferLen(wr) == 5
  {
  }

  lemma {:induction false} StoredLenIsSum(w: seq<byte>, off: nat, sges: seq<Sge>)
    requires SgesAt(w, off, sges)
    requires off + 16 * |sges| <= |w|
    ensures StoredLen(w, off, |sges|) == SumLen(sges)
    decreases |sges|
  {
    if sges != [] {
      assert SgeAt(w, off + 16 * 0, sges[0]);
      Le32RoundTrip(sges[0].len);
      forall i | 0 <= i < |sges[1..]|
        ensures SgeAt(w, off + 16 + 16 * i, sges[1..][i])
      {
        assert SgeAt(w, off + 16 * (i + 1), sges[i + 1]);
      }
      StoredLenIsSum(w, off + 16, sges[1..]);
    }
  }

  /** Flush round trip: decoding the bytes of a stored request gives the record owed for it. */
  lemma FlushRoundTrip(w: seq<byte>, wr: Wr, l: Limits, owner: bool, bbIdx: nat)
    requires WellFormed(wr) && LimitsOk(l) && Acceptable(wr, l) && bbIdx < 0x1_0000
    requires |w| == 64 * MAX_BB && Content(w, wr, owner, bbIdx)
    ensures Decodable(w) && DecodeCr(w) == ExpectedCr(wr)
  {
    AcceptableFits(wr, l, owner, bbIdx);
    HeaderBytes(w, HeaderOf(wr, owner, bbIdx));
    FlagBit(wr.flag);
    DataRoundTrip(w, wr, owner, bbIdx);
    LengthRoundTrip(w, wr, l, owner, bbIdx);
  }

  lemma DataRoundTrip(w: seq<byte>, wr: Wr, owner: bool, bbIdx: nat)
    requires WellFormed(wr)
    requires |w| == 64 * MAX_BB && Content(w, wr, owner, bbIdx)
    ensures DecodeData(w) == ExpectedCr(wr).data
  {
    HeaderBytes(w, HeaderOf(wr, owner, bbIdx));
    var (lo, hi) := AddrWords(wr);
    match wr.op {
      case OpSendImm => HalvesAt40(w, lo, hi);
      case OpSendInvalidate => HalvesAt40(w, lo, hi);
      case OpWriteImm => Le64RoundTrip(wr.imm);
      case _ =>
    }
  }

  lemma HalvesAt40(w: seq<byte>, lo: u32, hi: u32)
    requires |w| >= 48 && w[40..44] == LeBytes(lo, 4) && w[44..48] == LeBytes(hi, 4)
    ensures FromLe(w[40..44]) == lo && FromLe(w[44..48]) == hi && FromLe(w[40..48]) == lo + M32 * hi
  {
    assert w[40..48] == w[40..44] + w[44..48];
    Le64FromHalves(lo, hi);
    Le32RoundTrip(lo);
    Le32RoundTrip(hi);
  }

  lemma LengthRoundTrip(w: seq<byte>, wr: Wr, l: Limits, owner: bool, bbIdx: nat)
    requires WellFormed(wr) && LimitsOk(l) && Acceptable(wr, l) && bbIdx < 0x1_0000
    requires |w| == 64 * MAX_BB && Content(w, wr, owner, bbIdx)
    ensures Decodable(w) && DecodeCr(w).completionLen == ReportedLen(wr)
  {
    AcceptableFits(wr, l, owner, bbIdx);
    HeaderBytes(w, HeaderOf(wr, owner, bbIdx));
    FlagBit(wr.flag);
    if !InlineFlag(wr) {
      NonEmptySum(wr.local);
      ElementsRoundTrip(w, wr, l);
    }
  }

  /** The elements a request stores when it does not carry its payload inline. */
  function StoredSges(wr: Wr): seq<Sge> {
    if wr.op.OpNop? || wr.op.OpOther? then [] else if IsAtomic(wr.op) then wr.local else NonEmpty(wr.local)
  }

  lemma ElementsRoundTrip(w: seq<byte>, wr: Wr, l: Limits)
    requires WellFormed(wr) && LimitsOk(l) && Acceptable(wr, l) && !InlineFlag(wr)
    requires |w| == 64 * MAX_BB && BodyOk(w, wr)
    ensures CtlLen(UdmaOpcode(wr.op)) + 16 * |StoredSges(wr)| <= |w|
    ensures StoredLen(w, CtlLen(UdmaOpcode(wr.op)), |StoredSges(wr)|) == SumLen(StoredSges(wr))
  {
    var ctl := CtlLen(UdmaOpcode(wr.op));
    assert ctl + 16 * |StoredSges(wr)| <= |w|;
    assert SgesAt(w, ctl, StoredSges(wr));
    StoredLenIsSum(w, ctl, StoredSges(wr));
  }

  /** Content depends only on the blocks of the request. */
  lemma ContentExtends(w: seq<byte>, w': seq<byte>, wr: Wr, owner: bool, bbIdx: nat)
    requires WellFormed(wr)
    requires Content(w, wr, owner, bbIdx)
    requires |w| <= |w'| && w'[..|w|] == w
    ensures Content(w', wr, owner, bbIdx)
  {
    forall off: nat, bytes: seq<byte> | BytesAt(w, off, bytes)
      ensures BytesAt(w', off, bytes)
    {
      BytesAtExtends(w, w', off, bytes);
    }
    assert forall i :: 0 <= i < |w| ==> w'[..|w|][i] == w[i];
  }

  lemma BytesAtExtends(w: seq<byte>, w': seq<byte>, off: nat, bytes: seq<byte>)
    requires |w| <= |w'| && w'[..|w|] == w && BytesAt(w, off, bytes)
    ensures BytesAt(w', off, bytes)
  {
  }

  // ---------------------------------------------------------------- inline length check

  /** The running inline check of the overflow test and of the fill functions: add in 32 bits,
      reject when the running total exceeds the limit. */
  function InlineCheck(lens: seq<u32>, total: u32, limit: u32): Option<u32> {
    if lens == [] then Some(total)
    else if Add32(total, lens[0]) > limit then None
    else InlineCheck(lens[1..], Add32(total, lens[0]), limit)
  }

  function SumU32(lens: seq<u32>): nat {
    if lens == [] then 0 else lens[0] + SumU32(lens[1..])
  }

  /** The 32-bit total after `i` elements. */
  function RunningTotal(lens: seq<u32>, total: u32, i: nat): u32
    requires i <= |lens|
  {
    Wrap32(total + SumU32(lens[..i]))
  }

  /** Some running total exceeds the limit. */
  ghost predicate SeenOver(lens: seq<u32>, total: u32, limit: u32) {
    exists i :: 0 <= i <= |lens| && RunningTotal(lens, total, i) > limit
  }

  lemma RunningTotalStep(lens: seq<u32>, total: u32, i: nat)
    requires lens != [] && i < |lens|
    ensures RunningTotal(lens, total, i + 1) == RunningTotal(lens[1..], Add32(total, lens[0]), i)
  {
    assert lens[..i + 1][1..] == lens[1..][..i];
    WrapAdd(total + lens[0], SumU32(lens[1..][..i]));
  }

  lemma SeenOverStep(lens: seq<u32>, total: u32, limit: u32)
    requires lens != [] && total <= limit
    ensures SeenOver(lens, total, limit) <==> SeenOver(lens[1..], Add32(total, lens[0]), limit)
  {
    var rest, t := lens[1..], Add32(total, lens[0]);
    assert RunningTotal(lens, total, 0) == total;
    hide RunningTotal;
    hide Add32;
    if SeenOver(lens, total, limit) {
      var i :| 0 <= i <= |lens| && RunningTotal(lens, total, i) > limit;
      RunningTotalStep(lens, total, i - 1);
    }
    if SeenOver(rest, t, limit) {
      var i :| 0 <= i <= |rest| && RunningTotal(rest, t, i) > limit;
      RunningTotalStep(lens, total, i);
    }
  }

  /** The check decides `sum <= limit` if and only if the sum stays below 2^32 or a wrapped running total
      happens to exceed the limit. */
  lemma {:induction false} InlineCheckExact(lens: seq<u32>, total: u32, limit: u32)
    requires total <= limit
    ensures InlineCheck(lens, total, limit).None? <==> SeenOver(lens, total, limit)
    ensures InlineCheck(lens, total, limit).Some? ==>
              InlineCheck(lens, total, limit).value == Wrap32(total + SumU32(lens))
    ensures total + SumU32(lens) <= limit ==> !SeenOver(lens, total, limit)
    ensures (InlineCheck(lens, total, limit).Some? <==> total + SumU32(lens) <= limit)
            <==> total + SumU32(lens) < M32 || SeenOver(lens, total, limit)
    decreases |lens|
  {
    if lens == [] {
      assert lens[..0] == [];
      WrapSmall(total);
    } else {
      var t := Add32(total, lens[0]);
      SeenOverStep(lens, total, limit);
      WrapCases(total, lens[0], SumU32(lens[1..]), limit);
      if t <= limit {
        InlineCheckExact(lens[1..], t, limit);
      } else {
        assert RunningTotal(lens[1..], t, 0) == t;
      }
    }
  }

  lemma WrapCases(total: u32, x: u32, rest: nat, limit: u32)
    ensures (Add32(total, x) + rest) % M32 == (total + (x + rest)) % M32
    ensures Add32(total, x) == if total + x < M32 then total + x else total + x - M32
  {
  }

  /** A condition on single lengths: when each is below 2^32 - limit, the check decides `sum <= limit`. */
  lemma {:induction false} InlineCheckSafe(lens: seq<u32>, total: u32, limit: u32)
    requires total <= limit && forall i :: 0 <= i < |lens| ==> lens[i] < M32 - limit
    ensures InlineCheck(lens, total, limit).Some? <==> total + SumU32(lens) <= limit
    decreases |lens|
  {
    if lens == [] {
    } else {
      SmallAdd(total, lens[0]);
      if total + lens[0] <= limit {
        InlineCheckSafe(lens[1..], total + lens[0], limit);
      }
    }
  }

  /** The wrap is reachable: 100 bytes followed by 2^32 - 1 bytes pass a 208-byte limit as 99. */
  lemma InlineCheckWraps()
    ensures InlineCheck([100, UINT32_MAX], 0, 208) == Some(99)
  {
    assert [100, UINT32_MAX][1..] == [UINT32_MAX];
    assert InlineCheck([UINT32_MAX], 100, 208) == InlineCheck([UINT32_MAX][1..], 99, 208);
  }
}

/** The invariant of the send ring, on values: a log of unretired requests and the ring memory
    that must hold them. */
module SendRing {
  import opened Words
  import opened SqeLayout
  import opened RingBytes

  /** A posted request: its first block number in the unbounded block stream, and the block index
      written into its header when it went out through the direct-WQE window (0 otherwise). */
  datatype Entry = Entry(wr: Wr, start: nat, bbIdx: nat)

  function End(e: Entry): nat { e.start + Blocks(e.wr) }

  /** `(pi & cnt) == 0` for a power of two `cnt`: the lap is even. */
  predicate OwnerBit(start: nat, cnt: nat)
    requires cnt > 0
  {
    (start / cnt) % 2 == 0
  }

  ghost predicate EntryWf(e: Entry, l: Limits) {
    WellFormed(e.wr) && Acceptable(e.wr, l) && e.bbIdx < 0x1_0000 && Blocks(e.wr) <= MAX_BB
  }

  /** The requests of `log` follow each other without gaps from block `from` to block `to`. */
  ghost predicate Chain(log: seq<Entry>, l: Limits, from: nat, to: nat) {
    if log == [] then from == to
    else log[0].start == from && EntryWf(log[0], l) && Chain(log[1..], l, End(log[0]), to)
  }

  /** The log covers the blocks [head, tail); only its first request may be partly retired. */
  ghost predicate LogOk(log: seq<Entry>, l: Limits, head: nat, tail: nat) {
    if log == [] then head == tail
    else Chain(log, l, log[0].start, tail) && log[0].start <= head < End(log[0])
  }

  ghost predicate EntryStored(buf: seq<byte>, cnt: nat, e: Entry) {
    && 0 < cnt && |buf| == BLOCK * cnt && WellFormed(e.wr) && Blocks(e.wr) <= cnt
    && Content(Linear(buf, BlockBase(e.start, cnt), BLOCK * Blocks(e.wr)), e.wr, OwnerBit(e.start, cnt), e.bbIdx)
  }

  ghost predicate CtxStored(wrid: seq<u64>, cnt: nat, e: Entry, head: nat) {
    && 0 < cnt && |wrid| == cnt
    && forall k: nat :: e.start <= k < End(e) && head <= k ==> wrid[Slot(k, cnt)] == e.wr.userCtx
  }

  ghost predicate Stored(buf: seq<byte>, wrid: seq<u64>, cnt: nat, log: seq<Entry>, head: nat) {
    forall i :: 0 <= i < |log| ==>
      WellFormed(log[i].wr) && (head <= log[i].start ==> EntryStored(buf, cnt, log[i])) && CtxStored(wrid, cnt, log[i], head)
  }

  ghost predicate Inv(buf: seq<byte>, wrid: seq<u64>, cnt: nat, l: Limits, log: seq<Entry>, head: nat, tail: nat) {
    && MAX_BB <= cnt && |buf| == BLOCK * cnt && |wrid| == cnt && LimitsOk(l)
    && head <= tail <= head + cnt
    && LogOk(log, l, head, tail)
    && Stored(buf, wrid, cnt, log, head)
  }

  lemma InvEmpty(buf: seq<byte>, wrid: seq<u64>, cnt: nat, l: Limits)
    requires MAX_BB <= cnt && |buf| == BLOCK * cnt && |wrid| == cnt && LimitsOk(l)
    ensures Inv(buf, wrid, cnt, l, [], 0, 0) && BlockBase(0, cnt) == 0
  {
  }

  // ---------------------------------------------------------------- chains

  lemma {:induction false} ChainAt(log: seq<Entry>, l: Limits, from: nat, to: nat, i: nat)
    requires Chain(log, l, from, to) && i < |log|
    ensures EntryWf(log[i], l) && from <= log[i].start && End(log[i]) <= to
    ensures Chain(log[..i], l, from, log[i].start) && Chain(log[i + 1..], l, End(log[i]), to)
    decreases |log|
  {
    if i == 0 {
      assert log[..0] == [];
      ChainBounds(log[1..], l, End(log[0]), to);
    } else {
      ChainAt(log[1..], l, End(log[0]), to, i - 1);
      assert log[..i][1..] == log[1..][..i - 1];
      assert log[i + 1..] == log[1..][i..];
    }
  }

  lemma {:induction false} ChainBounds(log: seq<Entry>, l: Limits, from: nat, to: nat)
    requires Chain(log, l, from, to)
    ensures from <= to
    decreases |log|
  {
    if log != [] {
      ChainBounds(log[1..], l, End(log[0]), to);
    }
  }

  lemma {:induction false} ChainAppend(log: seq<Entry>, l: Limits, from: nat, to: nat, e: Entry)
    requires Chain(log, l, from, to) && EntryWf(e, l) && e.start == to
    ensures Chain(log + [e], l, from, End(e))
    decreases |log|
  {
    if log == [] {
      assert (log + [e])[1..] == [];
    } else {
      ChainAppend(log[1..], l, End(log[0]), to, e);
      assert (log + [e])[1..] == log[1..] + [e];
    }
  }

  lemma LogTail(log: seq<Entry>, l: Limits, head: nat, tail: nat)
    requires LogOk(log, l, head, tail) && log != []
    ensures LogOk(log[1..], l, End(log[0]), tail) && End(log[0]) <= tail
    ensures log[1..] != [] ==> log[1..][0].start == End(log[0])
  {
    var rest := log[1..];
    assert Chain(rest, l, End(log[0]), tail);
    ChainBounds(rest, l, End(log[0]), tail);
    if rest != [] {
      assert rest[0].start == End(log[0]);
    }
  }

  lemma EntryWithin(log: seq<Entry>, l: Limits, head: nat, tail: nat, i: nat)
    requires LogOk(log, l, head, tail) && i < |log|
    ensures EntryWf(log[i], l) && head < End(log[i]) <= tail
    ensures i > 0 ==> head < log[i].start
  {
    ChainAt(log, l, log[0].start, tail, i);
    if i > 0 {
      ChainAt(log[1..], l, End(log[0]), tail, i - 1);
    }
  }

  // ---------------------------------------------------------------- posting

  /** Only free blocks changed, so the invariant stands. */
  lemma InvFrame(buf: seq<byte>, buf': seq<byte>, wrid: seq<u64>, cnt: nat, l: Limits, log: seq<Entry>,
      head: nat, tail: nat)
    requires Inv(buf, wrid, cnt, l, log, head, tail)
    requires |buf'| == |buf|
    requires forall k: nat :: head <= k < tail ==> Block(buf', k, cnt) == Block(buf, k, cnt)
    ensures Inv(buf', wrid, cnt, l, log, head, tail)
  {
    forall i | 0 <= i < |log|
      ensures head <= log[i].start ==> EntryStored(buf', cnt, log[i])
    {
      if head <= log[i].start {
        EntryWithin(log, l, head, tail, i);
        EntryFrame(buf, buf', cnt, log[i]);
      }
    }
  }

  lemma EntryFrame(buf: seq<byte>, buf': seq<byte>, cnt: nat, e: Entry)
    requires EntryStored(buf, cnt, e) && |buf'| == |buf|
    requires forall k: nat :: e.start <= k < End(e) ==> Block(buf', k, cnt) == Block(buf, k, cnt)
    ensures EntryStored(buf', cnt, e)
  {
    LinearOfBlocks(buf', buf, e.start, Blocks(e.wr), cnt);
  }

  /** Appending a stored request. */
  lemma InvAppend(buf: seq<byte>, wrid: seq<u64>, wrid': seq<u64>, cnt: nat, l: Limits, log: seq<Entry>,
      head: nat, tail: nat, e: Entry)
    requires Inv(buf, wrid, cnt, l, log, head, tail)
    requires EntryWf(e, l) && e.start == tail && End(e) <= head + cnt
    requires EntryStored(buf, cnt, e) && CtxStored(wrid', cnt, e, head)
    requires forall k: nat :: head <= k < tail ==> wrid'[Slot(k, cnt)] == wrid[Slot(k, cnt)]
    ensures Inv(buf, wrid', cnt, l, log + [e], head, End(e))
  {
    if log == [] {
      assert (log + [e])[1..] == [];
    } else {
      ChainAppend(log, l, log[0].start, tail, e);
      assert (log + [e])[0] == log[0];
    }
    forall i | 0 <= i < |log|
      ensures CtxStored(wrid', cnt, log[i], head)
    {
      EntryWithin(log, l, head, tail, i);
      assert CtxStored(wrid, cnt, log[i], head);
    }
  }

  // ---------------------------------------------------------------- retiring

  /** The request that owns block `k`. */
  ghost function OwnerIndex(log: seq<Entry>, l: Limits, head: nat, tail: nat, k: nat): (i: nat)
    requires LogOk(log, l, head, tail) && head <= k < tail
    ensures i < |log| && log[i].start <= k < End(log[i])
    decreases |log|
  {
    LogTail(log, l, head, tail);
    if k < End(log[0]) then 0 else 1 + OwnerIndex(log[1..], l, End(log[0]), tail, k)
  }

  /** What is left of the log when the consumer moves to `head'`. */
  function Retire(log: seq<Entry>, head': nat): seq<Entry> {
    if log == [] then []
    else if End(log[0]) <= head' then Retire(log[1..], head')
    else log
  }

  /** Retiring any prefix of the blocks keeps the invariant, also inside a request. */
  lemma {:induction false} InvRetire(buf: seq<byte>, wrid: seq<u64>, cnt: nat, l: Limits, log: seq<Entry>,
      head: nat, tail: nat, head': nat)
    requires Inv(buf, wrid, cnt, l, log, head, tail)
    requires head <= head' <= tail
    ensures Inv(buf, wrid, cnt, l, Retire(log, head'), head', tail)
    decreases |log|
  {
    if log == [] {
    } else if End(log[0]) <= head' {
      InvDropFirst(buf, wrid, cnt, l, log, head, tail);
      InvRetire(buf, wrid, cnt, l, log[1..], End(log[0]), tail, head');
    } else {
      StoredLater(buf, wrid, cnt, log, head, head');
    }
  }

  lemma InvDropFirst(buf: seq<byte>, wrid: seq<u64>, cnt: nat, l: Limits, log: seq<Entry>, head: nat, tail: nat)
    requires Inv(buf, wrid, cnt, l, log, head, tail) && log != []
    ensures Inv(buf, wrid, cnt, l, log[1..], End(log[0]), tail)
  {
    LogTail(log, l, head, tail);
    StoredLater(buf, wrid, cnt, log, head, End(log[0]));
    assert Stored(buf, wrid, cnt, log[1..], End(log[0])) by {
      assert forall i :: 0 <= i < |log[1..]| ==> log[1..][i] == log[i + 1];
    }
  }

  lemma StoredLater(buf: seq<byte>, wrid: seq<u64>, cnt: nat, log: seq<Entry>, head: nat, head': nat)
    requires Stored(buf, wrid, cnt, log, head) && head <= head'
    ensures Stored(buf, wrid, cnt, log, head')
  {
  }

  /** Retiring block `k` retires exactly the requests before its owner, and the owner as well when
      `k` is its last block. */
  lemma {:induction false} RetireOwner(log: seq<Entry>, l: Limits, head: nat, tail: nat, k: nat)
    requires LogOk(log, l, head, tail) && head <= k < tail
    ensures var i := OwnerIndex(log, l, head, tail, k);
            Retire(log, k + 1) == if k + 1 == End(log[i]) then log[i + 1..] else log[i..]
    decreases |log|
  {
    LogTail(log, l, head, tail);
    if k >= End(log[0]) {
      RetireOwner(log[1..], l, End(log[0]), tail, k);
      var i := OwnerIndex(log[1..], l, End(log[0]), tail, k);
      assert log[1..][i..] == log[i + 1..];
      assert log[1..][i + 1..] == log[i + 2..];
    } else if k + 1 == End(log[0]) {
      assert Retire(log[1..], k + 1) == log[1..];
    } else {
      assert log[0..] == log;
    }
  }

  /** Every request behind the consumer position is whole: completions named last blocks only. */
  ghost predicate Aligned(log: seq<Entry>, head: nat) {
    log == [] || log[0].start == head
  }
}

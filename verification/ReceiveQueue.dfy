/** The receive queue (JFR): posting, fetching by the device, out-of-order completion and reset. */
module ReceiveQueue {
  import opened Words
  import opened BitWords
  import opened ReceiveRing

  const DB_RANGE: nat := 0x1_0000
  const LARGE_PACKAGE: nat := 4096

  datatype WqeSge = WqeSge(length: u32, tokenId: u32, va: u64)

  datatype Status = Success | Einval | Enomem

  function Seen(sge: WqeSge): Buffer { Buffer(sge.va, sge.length) }

  /** The producer index as the doorbell record shows it. */
  function Low16(n: nat): u32 { n % DB_RANGE }

  /** How many entries the device takes to be waiting. */
  function Waiting(db: u32, fetched: nat): nat { (db - fetched) % DB_RANGE }

  /** The first element of slot `s`: slots are `m` elements apart. */
  function Base(s: nat, m: nat): nat { s * m }

  /** Slot `s` of the WQE buffer holds the element list `stored`. */
  ghost predicate SlotHolds(mem: seq<WqeSge>, s: nat, stored: seq<Buffer>) {
    && Base(s, |stored|) + |stored| <= |mem|
    && forall j :: 0 <= j < |stored| ==> Seen(mem[Base(s, |stored|) + j]) == stored[j]
  }

  /** Every outstanding receive is stored, with its context, in its own slot. */
  ghost predicate Contents(mem: seq<WqeSge>, wrid: seq<u64>, pending: map<nat, Recv>, maxSge: nat) {
    forall s :: s in pending ==>
      && |pending[s].bufs| <= maxSge && s < |wrid| && wrid[s] == pending[s].ctx
      && SlotHolds(mem, s, StoredBufs(pending[s].bufs, maxSge))
  }

  lemma SlotApart(s: nat, t: nat, m: nat)
    requires s != t
    ensures Base(s, m) + m <= Base(t, m) || Base(t, m) + m <= Base(s, m)
  {
    if m > 0 {
      MultipleBound(t - s, m);
      assert (t - s) * m == t * m - s * m;
    }
  }

  lemma SlotBound(s: nat, cnt: nat, m: nat)
    requires s < cnt
    ensures Base(s, m) + m <= Base(cnt, m)
  {
    SlotApart(s, cnt, m);
    if m > 0 {
      MultipleBound(cnt - s, m);
      assert (cnt - s) * m == cnt * m - s * m;
    }
  }

  ghost predicate OnlySlot(before: seq<WqeSge>, after: seq<WqeSge>, s: nat, m: nat) {
    && |before| == |after|
    && forall i :: 0 <= i < |before| && !(Base(s, m) <= i < Base(s, m) + m) ==> after[i] == before[i]
  }

  lemma ContentsPost(before: seq<WqeSge>, after: seq<WqeSge>, wrid: seq<u64>, pending: map<nat, Recv>, maxSge: nat,
                     idx: nat, wr: Recv)
    requires Contents(before, wrid, pending, maxSge) && OnlySlot(before, after, idx, maxSge)
    requires idx !in pending && idx < |wrid| && |wr.bufs| <= maxSge
    requires SlotHolds(after, idx, StoredBufs(wr.bufs, maxSge))
    ensures Contents(after, wrid[idx := wr.ctx], pending[idx := wr], maxSge)
  {
    hide StoredBufs;
    hide Base;
    forall s | s in pending
      ensures SlotHolds(after, s, StoredBufs(pending[s].bufs, maxSge))
    {
      SlotApart(s, idx, maxSge);
    }
  }

  lemma FreeSlot(cnt: nat, free: set<nat>, pending: map<nat, Recv>, queue: seq<nat>, inFlight: set<nat>, idx: nat)
    requires Slots(cnt, free, pending, queue, inFlight) && idx in free
    ensures idx < cnt && idx !in pending
  {
    BelowIs(cnt);
  }

  lemma ContentsRemove(mem: seq<WqeSge>, wrid: seq<u64>, pending: map<nat, Recv>, maxSge: nat, idx: nat)
    requires Contents(mem, wrid, pending, maxSge)
    ensures Contents(mem, wrid, pending - {idx}, maxSge)
  {
  }

  /** `after` is `before` plus one new slot for each of the first `|slots|` requests. */
  ghost predicate Added(before: map<nat, Recv>, after: map<nat, Recv>, slots: seq<nat>, wrs: seq<Recv>) {
    && |slots| <= |wrs| && NoDup(slots) && after.Keys == before.Keys + Elems(slots)
    && (forall j :: 0 <= j < |slots| ==> slots[j] !in before && slots[j] in after && after[slots[j]] == wrs[j])
    && (forall s :: s in before ==> s in after && after[s] == before[s])
  }

  lemma AddedStep(before: map<nat, Recv>, after: map<nat, Recv>, slots: seq<nat>, wrs: seq<Recv>, idx: nat)
    requires Added(before, after, slots, wrs) && |slots| < |wrs| && idx !in after
    ensures Added(before, after[idx := wrs[|slots|]], slots + [idx], wrs)
  {
  }

  /** The device took `taken` off the front of the index ring while `more` was appended. */
  ghost predicate Taken(queue0: seq<nat>, inFlight0: set<nat>, more: seq<nat>, taken: seq<nat>,
      queue: seq<nat>, inFlight: set<nat>) {
    && queue0 + more == taken + queue
    && inFlight == inFlight0 + Elems(taken) && inFlight0 !! Elems(taken)
  }

  lemma TakenPost(queue0: seq<nat>, inFlight0: set<nat>, more: seq<nat>, taken: seq<nat>, queue: seq<nat>,
      inFlight: set<nat>, idx: nat)
    requires Taken(queue0, inFlight0, more, taken, queue, inFlight)
    ensures Taken(queue0, inFlight0, more + [idx], taken, queue + [idx], inFlight)
  {
    assert queue0 + (more + [idx]) == (queue0 + more) + [idx];
    assert taken + (queue + [idx]) == (taken + queue) + [idx];
  }

  lemma TakenFetch(queue0: seq<nat>, inFlight0: set<nat>, more: seq<nat>, taken: seq<nat>, queue: seq<nat>,
      inFlight: set<nat>)
    requires Taken(queue0, inFlight0, more, taken, queue, inFlight) && queue != [] && queue[0] !in inFlight
    ensures Taken(queue0, inFlight0, more, taken + [queue[0]], queue[1..], inFlight + {queue[0]})
  {
  }

  lemma NothingAdded(pending: map<nat, Recv>, queue: seq<nat>, inFlight: set<nat>, wrs: seq<Recv>)
    ensures Added(pending, pending, [], wrs) && Taken(queue, inFlight, [], [], queue, inFlight)
  {
  }

  class ReceiveQueue {
    const cnt: nat
    const maxSge: nat
    const bitmap: array<Word>
    const ring: array<u32>
    const wrid: array<u64>
    const qbuf: array<WqeSge>
    var pi: u32
    var ci: u32
    var swDb: u32
    var longSleep: bool
    var fetched: nat  // the device's own cursor
    ghost var posted: nat
    ghost var published: nat
    ghost var completed: nat
    ghost var pending: map<nat, Recv>
    ghost var queue: seq<nat>
    ghost var inFlight: set<nat>

    /** A power-of-two number of slots, at least 64; completions carry 16-bit slot numbers.  The context
        table has as many entries as the WQE buffer has elements. */
    ghost predicate Shape() {
      && RingCount(cnt) && 64 <= cnt <= 0x1_0000 && maxSge > 0
      && bitmap.Length * 64 == cnt && ring.Length == cnt
      && RingCount(wrid.Length) && cnt <= wrid.Length && qbuf.Length == Base(cnt, maxSge)
    }

    ghost predicate Valid()
      reads this, bitmap, ring, wrid, qbuf
    {
      && Shape()
      && pi == Wrap32(posted) && ci == Wrap32(completed)
      && swDb == Low16(published) && fetched <= published <= posted
      && Slots(cnt, Marked(bitmap[..]), pending, queue, inFlight)
      && Counted(inFlight, queue, posted, fetched, completed)
      && Published(cnt, ring[..], queue, fetched)
      && Contents(qbuf[..], wrid[..], pending, maxSge)
    }

    constructor (cnt: nat, maxSge: nat, wridCnt: nat)
      requires RingCount(cnt) && 64 <= cnt <= 0x1_0000 && maxSge > 0
      requires RingCount(wridCnt) && cnt <= wridCnt
      ensures Valid() && pending == map[] && queue == [] && inFlight == {} && this.cnt == cnt && this.maxSge == maxSge
      ensures fresh(bitmap) && fresh(ring) && fresh(wrid) && fresh(qbuf) && published == posted
    {
      WholeWords(cnt);
      this.cnt, this.maxSge := cnt, maxSge;
      bitmap, ring, wrid := new Word[cnt / 64], new u32[cnt], new u64[wridCnt];
      qbuf := new WqeSge[Base(cnt, maxSge)](_ => WqeSge(0, 0, 0));
      pi, ci, swDb, longSleep := 0, 0, 0, false;
      fetched, posted, published, completed := 0, 0, 0, 0;
      pending, queue, inFlight := map[], [], {};
      new;
      InitBitmap(bitmap);
    }

    // -------------------------------------------------------------- posting

    /** Stores the non-empty elements and clears the rest of the slot. */
    method FillSlot(bufs: seq<Buffer>, idx: nat)
      requires Shape() && idx < cnt && |bufs| <= maxSge
      modifies qbuf, this`longSleep
      ensures SlotHolds(qbuf[..], idx, StoredBufs(bufs, maxSge))
      ensures OnlySlot(old(qbuf[..]), qbuf[..], idx, maxSge)
      ensures longSleep == (old(longSleep) || Wrap32(Capacity(bufs)) > LARGE_PACKAGE)
    {
      hide Wrap32;
      hide RingCount;
      hide Capacity;
      hide NonEmpty;
      SlotBound(idx, cnt, maxSge);
      var base := Base(idx, maxSge);
      hide Base;
      var total, n := CopyBuffers(bufs, base);
      if total > LARGE_PACKAGE {
        longSleep := true;
      }
      ghost var mem := qbuf[..];
      for k := base + n to base + maxSge
        modifies qbuf
        invariant forall i :: base + n <= i < k ==> qbuf[i] == WqeSge(0, 0, 0)
        invariant forall i :: 0 <= i < qbuf.Length && !(base + n <= i < base + maxSge) ==> qbuf[i] == mem[i]
      {
        qbuf[k] := WqeSge(0, 0, 0);
      }
      ghost var stored := StoredBufs(bufs, maxSge);
      forall j | 0 <= j < maxSge
        ensures Seen(qbuf[base + j]) == stored[j]
      {
        if j < n {
          assert stored[j] == NonEmpty(bufs)[j] && qbuf[base + j] == mem[base + j];
        }
      }
    }

    /** The loop over the request's elements, `base` being the first element of the slot. */
    method CopyBuffers(bufs: seq<Buffer>, base: nat) returns (total: u32, n: nat)
      requires base + maxSge <= qbuf.Length && |bufs| <= maxSge
      modifies qbuf
      ensures n == |NonEmpty(bufs)| && total == Wrap32(Capacity(bufs))
      ensures forall j :: 0 <= j < n ==> Seen(qbuf[base + j]) == NonEmpty(bufs)[j]
      ensures forall j :: 0 <= j < qbuf.Length && !(base <= j < base + maxSge) ==> qbuf[j] == old(qbuf[j])
    {
      PrefixZero(bufs);
      hide Wrap32;
      hide Add32;
      hide Capacity;
      hide NonEmpty;
      total, n := 0, 0;
      for i := 0 to |bufs|
        invariant n == |NonEmpty(bufs[..i])| <= i && total == Wrap32(Capacity(bufs[..i]))
        invariant forall j :: 0 <= j < n ==> Seen(qbuf[base + j]) == NonEmpty(bufs[..i])[j]
        invariant forall j :: 0 <= j < qbuf.Length && !(base <= j < base + maxSge) ==> qbuf[j] == old(qbuf[j])
      {
        PrefixStep(bufs, i);
        if bufs[i].len != 0 {
          total := Add32(total, bufs[i].len);
          qbuf[base + n] := qbuf[base + n].(va := bufs[i].addr, length := bufs[i].len);
          n := n + 1;
        }
      }
      assert bufs[..|bufs|] == bufs;
    }

    /** `post_recv_one`.  The index allocation cannot fail once the overflow check has passed. */
    method PostOne(wr: Recv) returns (st: Status, ghost idx: nat)
      requires Valid()
      modifies this`pi, this`longSleep, this`posted, this`pending, this`queue, bitmap, ring, wrid, qbuf
      ensures Valid()
      ensures st == Einval <==> |wr.bufs| > maxSge
      ensures st == Enomem <==> |wr.bufs| <= maxSge && |old(pending)| == cnt
      ensures st != Success ==> posted == old(posted) && pending == old(pending) && queue == old(queue)
      ensures st == Success ==> posted == old(posted) + 1 && idx !in old(pending)
      ensures st == Success ==> pending == old(pending)[idx := wr] && queue == old(queue) + [idx]
      ensures longSleep == (old(longSleep) || (st == Success && Wrap32(Capacity(wr.bufs)) > LARGE_PACKAGE))
    {
      hide Wrap32;
      hide Add32;
      hide Sub32;
      hide Slot;
      hide Base;
      hide Slots;
      hide Contents;
      hide Published;
      hide RingCount;
      idx := 0;
      if |wr.bufs| > maxSge {
        return Einval, idx;
      }
      Outstanding();
      CounterDistance(posted, completed);
      if Sub32(pi, ci) >= cnt {
        return Enomem, idx;
      }
      ghost var free := Marked(bitmap[..]);
      ghost var mem := qbuf[..];
      var ok, slot := UseIdx(bitmap, cnt);
      assert ok;
      FreeSlot(cnt, free, pending, queue, inFlight, slot);
      hide Marked;
      FillSlot(wr.bufs, slot);
      SlotsPost(cnt, free, pending, queue, inFlight, slot, wr);
      ContentsPost(mem, qbuf[..], wrid[..], pending, maxSge, slot, wr);
      PublishSlot(slot, wr);
      return Success, slot;
    }

    /** `fill_wqe_idx` and the context: the slot becomes visible in the index ring. */
    method PublishSlot(slot: u32, wr: Recv)
      requires Shape() && slot < cnt
      requires pi == Wrap32(posted) && ci == Wrap32(completed)
      requires swDb == Low16(published) && fetched <= published <= posted
      requires Slots(cnt, Marked(bitmap[..]), pending[slot := wr], queue + [slot], inFlight)
      requires Counted(inFlight, queue, posted, fetched, completed) && |queue| < cnt
      requires Published(cnt, ring[..], queue, fetched)
      requires Contents(qbuf[..], wrid[..][slot := wr.ctx], pending[slot := wr], maxSge)
      modifies this`pi, this`posted, this`pending, this`queue, ring, wrid
      ensures Valid() && posted == old(posted) + 1
      ensures pending == old(pending)[slot := wr] && queue == old(queue) + [slot]
    {
      hide Wrap32;
      hide Add32;
      hide Slot;
      hide Base;
      hide Slots;
      hide Contents;
      hide Published;
      hide RingCount;
      hide Marked;
      PublishedPost(cnt, ring[..], queue, fetched, slot);
      CounterSlot(posted, cnt);
      ghost var entries, table := ring[..], wrid[..];
      ring[Slot(pi, cnt)] := slot;
      assert ring[..] == entries[Slot(posted, cnt) := slot];
      WrapAdd(posted, 1);
      pi := Add32(pi, 1);
      wrid[slot] := wr.ctx;
      assert wrid[..] == table[slot := wr.ctx];
      posted, pending, queue := posted + 1, pending[slot := wr], queue + [slot];
    }

    /** The device fetches the next published entry, if the 16-bit doorbell shows one.  It reads the slot
        number that was posted: no entry is overwritten before it is fetched. */
    method Fetch() returns (slot: Option<nat>)
      requires Valid()
      modifies this`fetched, this`queue, this`inFlight
      ensures Valid() && (slot.Some? <==> 0 < published - old(fetched) < DB_RANGE)
      ensures slot.None? ==> fetched == old(fetched) && queue == old(queue) && inFlight == old(inFlight)
      ensures slot.Some? ==> old(queue) != [] && slot.value == old(queue)[0] && fetched == old(fetched) + 1
      ensures slot.Some? ==> queue == old(queue)[1..] && inFlight == old(inFlight) + {slot.value} && slot.value in pending
      ensures slot.Some? ==> slot.value !in old(inFlight)
    {
      hide Marked;
      hide Contents;
      hide Wrap32;
      hide RingCount;
      hide Published;
      hide Slots;
      hide Slot;
      hide Elems;
      hide Waiting;
      OutstandingCount();
      DoorbellExact(published, fetched);
      if Waiting(swDb, fetched) == 0 {
        return None;
      }
      SlotsFetch(cnt, Marked(bitmap[..]), pending, queue, inFlight);
      PublishedFetch(cnt, ring[..], queue, fetched);
      CountedFetch(inFlight, queue, posted, fetched, completed);
      var head := ring[Slot(fetched, cnt)];
      fetched, queue, inFlight := fetched + 1, queue[1..], inFlight + {queue[0]};
      slot := Some(head);
    }

    /** Any number of fetches, as far as the doorbell allows. */
    method DeviceFetches(ghost queue0: seq<nat>, ghost inFlight0: set<nat>, ghost more: seq<nat>,
        taken0: seq<nat>)
      returns (taken: seq<nat>)
      requires Valid() && Taken(queue0, inFlight0, more, taken0, queue, inFlight)
      modifies this`fetched, this`queue, this`inFlight
      ensures Valid() && Taken(queue0, inFlight0, more, taken, queue, inFlight)
    {
      hide Valid;
      hide Taken;
      taken := taken0;
      var n :| 0 <= n;
      while n > 0
        invariant Valid() && Taken(queue0, inFlight0, more, taken, queue, inFlight)
      {
        ghost var q, fl := queue, inFlight;
        var slot := Fetch();
        if slot.Some? {
          TakenFetch(queue0, inFlight0, more, taken, q, fl);
          taken := taken + [slot.value];
        }
        n := n - 1;
      }
    }

    /** `udma_u_post_jfr_wr`, with the device fetching in between.  Exactly the requests before the bad
        one are posted, each in a slot of its own, and the doorbell shows them. */
    method PostList(wrs: seq<Recv>) returns (st: Status, bad: nat, ghost slots: seq<nat>, taken: seq<nat>)
      requires Valid() && published == posted
      modifies this, bitmap, ring, wrid, qbuf
      ensures Valid() && published == posted == old(posted) + bad && completed == old(completed)
      ensures bad == |slots| && Added(old(pending), pending, slots, wrs)
      ensures Taken(old(queue), old(inFlight), slots, taken, queue, inFlight)
      ensures st == Success <==> bad == |wrs|
      ensures st == Einval ==> bad < |wrs| && |wrs[bad].bufs| > maxSge
      ensures st == Enomem ==> bad < |wrs| && |wrs[bad].bufs| <= maxSge && |old(pending)| + bad == cnt
      ensures forall j :: 0 <= j < bad ==> |wrs[j].bufs| <= maxSge
    {
      hide Valid;
      hide Taken;
      hide Added;
      OutstandingCount();
      NothingAdded(pending, queue, inFlight, wrs);
      st, bad, slots, taken := PostEach(wrs, pending, queue, inFlight);
      if bad > 0 {
        RingDoorbell();
      }
    }

    method PostEach(wrs: seq<Recv>, ghost pending0: map<nat, Recv>, ghost queue0: seq<nat>, ghost inFlight0: set<nat>)
      returns (st: Status, bad: nat, ghost slots: seq<nat>, taken: seq<nat>)
      requires Valid() && Added(pending0, pending, [], wrs) && Taken(queue0, inFlight0, [], [], queue, inFlight)
      modifies this`pi, this`longSleep, this`posted, this`pending, this`queue, this`fetched, this`inFlight
      modifies bitmap, ring, wrid, qbuf
      ensures Valid() && posted == old(posted) + bad
      ensures bad == |slots| && Added(pending0, pending, slots, wrs)
      ensures Taken(queue0, inFlight0, slots, taken, queue, inFlight)
      ensures st == Success <==> bad == |wrs|
      ensures st == Einval ==> bad < |wrs| && |wrs[bad].bufs| > maxSge
      ensures st == Enomem ==> bad < |wrs| && |wrs[bad].bufs| <= maxSge && posted - completed == cnt
      ensures forall j :: 0 <= j < bad ==> |wrs[j].bufs| <= maxSge
    {
      hide Valid;
      hide Taken;
      hide Added;
      slots, taken, bad, st := [], [], 0, Success;
      while bad < |wrs|
        invariant bad <= |wrs| && bad == |slots| && st == Success
        invariant Valid() && Added(pending0, pending, slots, wrs)
        invariant Taken(queue0, inFlight0, slots, taken, queue, inFlight)
        invariant posted == old(posted) + bad
        invariant forall j :: 0 <= j < bad ==> |wrs[j].bufs| <= maxSge
        decreases |wrs| - bad
      {
        st, slots, taken := PostTurn(wrs, bad, pending0, queue0, inFlight0, slots, taken);
        if st != Success {
          return;
        }
        bad := bad + 1;
      }
    }

    /** One turn of the loop: fetches by the device, then one request. */
    method PostTurn(wrs: seq<Recv>, i: nat, ghost pending0: map<nat, Recv>, ghost queue0: seq<nat>,
        ghost inFlight0: set<nat>,
                    ghost slots0: seq<nat>, taken0: seq<nat>)
      returns (st: Status, ghost slots: seq<nat>, taken: seq<nat>)
      requires Valid() && i < |wrs| && i == |slots0| && Added(pending0, pending, slots0, wrs)
      requires Taken(queue0, inFlight0, slots0, taken0, queue, inFlight)
      modifies this`pi, this`longSleep, this`posted, this`pending, this`queue, this`fetched, this`inFlight
      modifies bitmap, ring, wrid, qbuf
      ensures Valid() && Added(pending0, pending, slots, wrs)
      ensures Taken(queue0, inFlight0, slots, taken, queue, inFlight)
      ensures |slots| == if st == Success then i + 1 else i
      ensures posted == if st == Success then old(posted) + 1 else old(posted)
      ensures st == Einval <==> |wrs[i].bufs| > maxSge
      ensures st == Enomem <==> |wrs[i].bufs| <= maxSge && posted - completed == cnt && posted == old(posted)
    {
      hide Valid;
      hide Taken;
      hide Added;
      taken := DeviceFetches(queue0, inFlight0, slots0, taken0);
      OutstandingCount();
      ghost var pending1, queue1 := pending, queue;
      ghost var idx;
      st, idx := PostOne(wrs[i]);
      slots := slots0;
      if st == Success {
        AddedStep(pending0, pending1, slots0, wrs, idx);
        TakenPost(queue0, inFlight0, slots0, taken, queue1, inFlight, idx);
        slots := slots0 + [idx];
      }
    }

    method RingDoorbell()
      requires Valid()
      modifies this`swDb, this`published
      ensures Valid() && published == posted
    {
      hide Marked;
      hide Contents;
      hide Published;
      hide Slots;
      hide RingCount;
      LowHalf(posted);
      swDb := Low16(pi);
      published := posted;
    }

    // -------------------------------------------------------------- completion

    /** `handle_recv_inl_cqe`: an inline payload goes to the posted buffers in order; what does not fit
        is reported as a length error. */
    method ScatterInline(slot: nat, data: seq<byte>, mem0: Memory) returns (mem: Memory, len: nat, tooLong: bool)
      requires Valid() && slot in pending
      ensures mem == Scatter(mem0, pending[slot].bufs, data)
      ensures len == Min(Capacity(pending[slot].bufs), |data|)
      ensures tooLong <==> Capacity(pending[slot].bufs) < |data|
    {
      ghost var stored := StoredBufs(pending[slot].bufs, maxSge);
      assert SlotHolds(qbuf[..], slot, stored);
      ScatterStored(mem0, pending[slot].bufs, maxSge, data);
      hide *;
      mem, len := ScatterFrom(Base(slot, maxSge), stored, data, mem0);
      tooLong := len < |data|;
    }

    method ScatterFrom(base: nat, ghost stored: seq<Buffer>, data: seq<byte>,
        mem0: Memory) returns (mem: Memory, len: nat)
      requires |stored| == maxSge && base + maxSge <= qbuf.Length
      requires forall j :: 0 <= j < maxSge ==> Seen(qbuf[base + j]) == stored[j]
      ensures mem == Scatter(mem0, stored, data) && len == Min(Capacity(stored), |data|)
    {
      hide Scatter;
      hide Capacity;
      hide Store;
      hide Seen;
      mem, len := mem0, 0;
      var i := 0;
      assert data[0..] == data && stored[0..] == stored;
      while i < maxSge && len < |data|
        invariant 0 <= i <= maxSge && 0 <= len <= |data|
        invariant Scatter(mem, stored[i..], data[len..]) == Scatter(mem0, stored, data)
        invariant Min(Capacity(stored), |data|) == len + Min(Capacity(stored[i..]), |data| - len)
      {
        var sge := Seen(qbuf[base + i]);
        assert sge == stored[i];
        ScatterStep(mem, stored, i, data[len..]);
        var size := Min(sge.len, |data| - len);
        assert data[len..][..size] == data[len..len + size] && data[len..][size..] == data[len + size..];
        mem := Store(mem, sge.addr, data[len..len + size]);
        len, i := len + size, i + 1;
      }
      ScatterEnd(mem, stored[i..], data[len..]);
    }

    /** `udma_u_update_jfr_idx` for the receive named by a completion, in any order.  It returns the
        context posted with the slot and frees the slot. */
    method Complete(entryIdx: nat, clean: bool, payload: Option<seq<byte>>, mem0: Memory)
      returns (ctx: u64, mem: Memory, inlined: Option<(nat, bool)>)
      requires Valid() && entryIdx in inFlight
      modifies this`ci, this`completed, this`pending, this`inFlight, bitmap
      ensures Valid() && entryIdx in old(pending) && ctx == old(pending)[entryIdx].ctx
      ensures pending == old(pending) - {entryIdx} && inFlight == old(inFlight) - {entryIdx}
      ensures completed == old(completed) + 1
      ensures inlined.Some? <==> !clean && payload.Some?
      ensures inlined.None? ==> mem == mem0
      ensures inlined.Some? ==>
        var bufs := old(pending)[entryIdx].bufs;
        && mem == Scatter(mem0, bufs, payload.value)
        && inlined.value == (Min(Capacity(bufs), |payload.value|), Capacity(bufs) < |payload.value|)
    {
      hide Valid;
      hide Scatter;
      hide Capacity;
      StoredContext(entryIdx);
      ctx := wrid[Slot(entryIdx, wrid.Length)];
      mem, inlined := mem0, None;
      if !clean && payload.Some? {
        var len, tooLong;
        mem, len, tooLong := ScatterInline(entryIdx, payload.value, mem0);
        inlined := Some((len, tooLong));
      }
      Releasable(entryIdx);
      hide Released;
      Release(entryIdx, pending - {entryIdx}, inFlight - {entryIdx});
    }

    lemma StoredContext(idx: nat)
      requires Valid() && idx in inFlight
      ensures wrid.Length > 0 && idx in pending && wrid[Slot(idx, wrid.Length)] == pending[idx].ctx
    {
      hide Slot;
      hide Base;
      hide RingCount;
      hide SlotHolds;
      SmallSlot(idx, wrid.Length);
    }

    lemma Releasable(idx: nat)
      requires Valid() && idx in inFlight
      ensures Released(idx, pending - {idx}, inFlight - {idx})
    {
      SlotsComplete(cnt, Marked(bitmap[..]), pending, queue, inFlight, idx);
      ContentsRemove(qbuf[..], wrid[..], pending, maxSge, idx);
      CountedComplete(inFlight, queue, posted, fetched, completed, idx);
    }

    /** The state is valid once slot `idx` is marked free and counted. */
    ghost predicate Released(idx: nat, left: map<nat, Recv>, flying: set<nat>)
      reads this, bitmap, wrid, qbuf
    {
      && idx < cnt && Slots(cnt, Marked(bitmap[..]) + {idx}, left, queue, flying)
      && Contents(qbuf[..], wrid[..], left, maxSge)
      && Counted(flying, queue, posted, fetched, completed + 1)
    }

    method Release(idx: nat, ghost left: map<nat, Recv>, ghost flying: set<nat>)
      requires Valid() && Released(idx, left, flying)
      modifies this`ci, this`completed, this`pending, this`inFlight, bitmap
      ensures Valid() && pending == left && inFlight == flying && completed == old(completed) + 1
    {
      hide RingCount;
      hide Marked;
      hide Wrap32;
      hide Add32;
      hide Published;
      hide Slots;
      hide Contents;
      hide Counted;
      hide Base;
      hide Low16;
      FreeIdx(bitmap, idx);
      WrapAdd(completed, 1);
      ci := Add32(ci, 1);
      completed, pending, inFlight := completed + 1, left, flying;
    }

    /** Cleaning a completion queue frees the slots of all dropped receive completions. */
    method ReleaseAll(entries: seq<nat>)
      requires Valid() && NoDup(entries) && Elems(entries) <= inFlight
      modifies this`ci, this`completed, this`pending, this`inFlight, bitmap
      ensures Valid() && pending == old(pending) - Elems(entries) && inFlight == old(inFlight) - Elems(entries)
      ensures completed == old(completed) + |entries|
    {
      hide Valid;
      assert pending == pending - Elems(entries[..0]);
      for i := 0 to |entries|
        invariant Valid() && completed == old(completed) + i
        invariant pending == old(pending) - Elems(entries[..i]) && inFlight == old(inFlight) - Elems(entries[..i])
      {
        assert entries[..i + 1] == entries[..i] + [entries[i]];
        assert Elems(entries[..i + 1]) == Elems(entries[..i]) + {entries[i]};
        assert entries[i] in inFlight;
        var _, _, _ := Complete(entries[i], true, None, map[]);
      }
      assert entries[..|entries|] == entries;
    }

    /** `udma_reset_sw_u_jfr_queue`, after the device has been reset. */
    method Reset()
      requires Shape()
      modifies this, bitmap
      ensures Valid() && published == posted == 0 && pending == map[] && queue == [] && inFlight == {}
    {
      hide Valid;
      InitBitmap(bitmap);
      hide Marked;
      pi, ci, swDb := 0, 0, 0;
      fetched, posted, published, completed := 0, 0, 0, 0;
      pending, queue, inFlight := map[], [], {};
      EmptyIsValid();
    }

    lemma EmptyIsValid()
      requires Shape() && Marked(bitmap[..]) == Below(64 * bitmap.Length)
      requires pi == 0 && ci == 0 && swDb == 0 && fetched == 0 && posted == 0 && published == 0 && completed == 0
      requires pending == map[] && queue == [] && inFlight == {}
      ensures Valid()
    {
      hide Low16;
      hide Wrap32;
      hide RingCount;
      hide Base;
      hide Marked;
      hide Below;
      hide Slots;
      hide Counted;
      hide Contents;
      hide Published;
      EmptyQueue(cnt, ring[..], qbuf[..], wrid[..], maxSge);
      ZeroCounters();
    }

    /** Every slot is free, waiting in the index ring, or in flight. */
    lemma EverySlot()
      requires Valid()
      ensures |Marked(bitmap[..])| + |queue| + |inFlight| == cnt
    {
      hide Marked;
      hide Contents;
      hide Published;
      hide Base;
      hide Wrap32;
      hide RingCount;
      Conservation(cnt, Marked(bitmap[..]), pending, queue, inFlight, posted, fetched, completed);
      hide Slots;
    }

    lemma OutstandingCount()
      requires Valid()
      ensures |pending| == posted - completed <= cnt && published - fetched <= |queue| <= cnt
    {
      Outstanding();
    }

    /** The producer and consumer counters count the outstanding receives. */
    lemma Outstanding()
      requires Valid()
      ensures |pending| == posted - completed <= cnt
      ensures |Marked(bitmap[..])| + Sub32(pi, ci) == cnt
      ensures posted - completed < cnt ==> exists i :: i in Marked(bitmap[..]) && i < cnt
      ensures |queue| <= posted - completed
    {
      Conservation(cnt, Marked(bitmap[..]), pending, queue, inFlight, posted, fetched, completed);
      CounterDistance(posted, completed);
      ElemsCount(queue);
      assert |pending.Keys| == |queue| + |inFlight|;
    }
  }

  lemma WholeWords(cnt: nat)
    requires RingCount(cnt) && cnt >= 64
    ensures cnt % 64 == 0
  {
    var k: nat :| k <= 31 && cnt == Pow2(k);
    Pow2Values();
    if k < 6 {
      Pow2Monotonic(k + 1, 6);
    }
    Pow2Add(k - 6, 6);
    DivModUnique(cnt, Pow2(k - 6), 0, 64);
  }

  lemma EmptyQueue(cnt: nat, ring: seq<u32>, mem: seq<WqeSge>, wrid: seq<u64>, maxSge: nat)
    requires 0 < cnt == |ring|
    ensures Slots(cnt, Below(cnt), map[], [], {}) && Counted({}, [], 0, 0, 0)
    ensures Published(cnt, ring, [], 0) && Contents(mem, wrid, map[], maxSge)
  {
  }

  lemma ZeroCounters()
    ensures Low16(0) == 0 && Wrap32(0) == 0
  {
  }

  lemma SmallSlot(k: nat, cnt: nat)
    requires k < cnt
    ensures Slot(k, cnt) == k
  {
  }

  lemma ScatterEnd(mem: Memory, bufs: seq<Buffer>, data: seq<byte>)
    requires bufs == [] || data == []
    ensures Scatter(mem, bufs, data) == mem && Min(Capacity(bufs), |data|) == 0
  {
  }

  lemma LowHalf(n: nat)
    ensures Low16(Wrap32(n)) == Low16(n)
  {
  }

  /** The 16-bit producer index tells how many entries are waiting if and only if there are fewer than
      2^16: a full queue of 2^16 slots, none of them fetched, looks empty. */
  lemma DoorbellExact(published: nat, fetched: nat)
    requires fetched <= published <= fetched + DB_RANGE
    ensures Waiting(Low16(published), fetched) == published - fetched <==> published - fetched < DB_RANGE
    ensures Waiting(Low16(published), fetched) == 0 <==> !(0 < published - fetched < DB_RANGE)
  {
  }

  lemma PrefixZero(bufs: seq<Buffer>)
    ensures NonEmpty(bufs[..0]) == [] && Wrap32(Capacity(bufs[..0])) == 0
  {
  }

  lemma PrefixStep(bufs: seq<Buffer>, i: nat)
    requires i < |bufs|
    ensures NonEmpty(bufs[..i + 1]) == NonEmpty(bufs[..i]) + if bufs[i].len == 0 then [] else [bufs[i]]
    ensures Wrap32(Capacity(bufs[..i + 1])) == Add32(Wrap32(Capacity(bufs[..i])), bufs[i].len)
    ensures bufs[i].len == 0 ==> Capacity(bufs[..i + 1]) == Capacity(bufs[..i])
  {
    assert bufs[..i + 1][..i] == bufs[..i] && bufs[..i + 1] == bufs[..i] + [bufs[i]];
    CapacityAppend(bufs[..i], bufs[i]);
    WrapAdd(Capacity(bufs[..i]), bufs[i].len);
  }

  lemma {:induction false} CapacityAppend(bufs: seq<Buffer>, b: Buffer)
    ensures Capacity(bufs + [b]) == Capacity(bufs) + b.len
  {
    if bufs == [] {
    } else {
      assert (bufs + [b])[1..] == bufs[1..] + [b];
      CapacityAppend(bufs[1..], b);
    }
  }
}

/** The slots of a receive queue (JFR): who owns each slot, and what the index ring holds.

    A slot is free, waiting in the index ring for the device, or in flight in the device.  Counters
    are unbounded here; `ReceiveQueue` keeps the 32-bit ones. */
module ReceiveRing {
  import opened Words
  import opened BitWords

  datatype Buffer = Buffer(addr: u64, len: u32)

  datatype Recv = Recv(bufs: seq<Buffer>, ctx: u64)

  ghost function Elems(q: seq<nat>): set<nat> {
    set x | x in q
  }

  lemma {:induction false} ElemsCount(q: seq<nat>)
    requires NoDup(q)
    ensures |Elems(q)| == |q|
  {
    if q == [] {
    } else {
      ElemsCount(q[1..]);
      assert Elems(q) == Elems(q[1..]) + {q[0]};
    }
  }

  /** `free` are the indices the bitmap offers, `queue` the published slots that the device has not
      fetched yet, `inFlight` the fetched ones whose completion is still to come. */
  ghost predicate Slots(cnt: nat, free: set<nat>, pending: map<nat, Recv>, queue: seq<nat>, inFlight: set<nat>) {
    && pending.Keys <= Below(cnt) && free == Below(cnt) - pending.Keys
    && NoDup(queue) && Elems(queue) !! inFlight
    && pending.Keys == Elems(queue) + inFlight
  }

  /** Entry `k` of the index ring, for every published entry that the device has not fetched. */
  ghost predicate Published(cnt: nat, ring: seq<u32>, queue: seq<nat>, fetched: nat)
    requires 0 < cnt == |ring|
  {
    forall k :: 0 <= k < |queue| ==> ring[Slot(fetched + k, cnt)] == queue[k]
  }

  ghost predicate Counted(inFlight: set<nat>, queue: seq<nat>, posted: nat, fetched: nat, completed: nat) {
    completed <= fetched && posted == fetched + |queue| && |inFlight| == fetched - completed
  }

  /** Nothing is lost or duplicated: the free indices and the outstanding receives together are all
      the slots, whatever the order of the completions was. */
  lemma Conservation(cnt: nat, free: set<nat>, pending: map<nat, Recv>, queue: seq<nat>, inFlight: set<nat>,
                     posted: nat, fetched: nat, completed: nat)
    requires Slots(cnt, free, pending, queue, inFlight)
    requires Counted(inFlight, queue, posted, fetched, completed)
    ensures |free| + (posted - completed) == cnt
    ensures posted - completed < cnt ==> exists i :: i in free && i < cnt
  {
    ElemsCount(queue);
    BelowIs(cnt);
    assert |pending.Keys| == |queue| + |inFlight|;
    assert Below(cnt) == free + pending.Keys;
    if posted - completed < cnt {
      assert free != {};
      var i :| i in free;
      assert i in Below(cnt);
    }
  }

  lemma SlotsPost(cnt: nat, free: set<nat>, pending: map<nat, Recv>, queue: seq<nat>, inFlight: set<nat>,
                  idx: nat, wr: Recv)
    requires Slots(cnt, free, pending, queue, inFlight) && idx in free
    ensures Slots(cnt, free - {idx}, pending[idx := wr], queue + [idx], inFlight)
  {
  }

  /** The ring position of a new entry is not one the device still has to read. */
  lemma PublishedPost(cnt: nat, ring: seq<u32>, queue: seq<nat>, fetched: nat, idx: nat)
    requires 0 < cnt == |ring| && |queue| < cnt && idx < M32
    requires Published(cnt, ring, queue, fetched)
    ensures Published(cnt, ring[Slot(fetched + |queue|, cnt) := idx], queue + [idx], fetched)
  {
    var ring', queue' := ring[Slot(fetched + |queue|, cnt) := idx], queue + [idx];
    forall k | 0 <= k < |queue'|
      ensures ring'[Slot(fetched + k, cnt)] == queue'[k]
    {
      if k < |queue| {
        SlotsDistinct(fetched + k, fetched + |queue|, cnt);
      }
    }
  }

  lemma SlotsFetch(cnt: nat, free: set<nat>, pending: map<nat, Recv>, queue: seq<nat>, inFlight: set<nat>)
    requires Slots(cnt, free, pending, queue, inFlight) && queue != []
    ensures Slots(cnt, free, pending, queue[1..], inFlight + {queue[0]})
    ensures queue[0] !in inFlight && queue[0] in pending
  {
  }

  lemma PublishedFetch(cnt: nat, ring: seq<u32>, queue: seq<nat>, fetched: nat)
    requires 0 < cnt == |ring| && queue != [] && Published(cnt, ring, queue, fetched)
    ensures ring[Slot(fetched, cnt)] == queue[0] && Published(cnt, ring, queue[1..], fetched + 1)
  {
  }

  lemma CountedFetch(inFlight: set<nat>, queue: seq<nat>, posted: nat, fetched: nat, completed: nat)
    requires Counted(inFlight, queue, posted, fetched, completed) && queue != [] && queue[0] !in inFlight
    ensures Counted(inFlight + {queue[0]}, queue[1..], posted, fetched + 1, completed)
  {
  }

  /** A completion may name any slot in flight. */
  lemma SlotsComplete(cnt: nat, free: set<nat>, pending: map<nat, Recv>, queue: seq<nat>, inFlight: set<nat>, idx: nat)
    requires Slots(cnt, free, pending, queue, inFlight) && idx in inFlight
    ensures Slots(cnt, free + {idx}, pending - {idx}, queue, inFlight - {idx})
    ensures idx in pending && idx < cnt
  {
    BelowIs(cnt);
    assert (pending - {idx}).Keys == pending.Keys - {idx};
  }

  lemma CountedComplete(inFlight: set<nat>, queue: seq<nat>, posted: nat, fetched: nat, completed: nat, idx: nat)
    requires Counted(inFlight, queue, posted, fetched, completed) && idx in inFlight
    ensures Counted(inFlight - {idx}, queue, posted, fetched, completed + 1)
  {
  }

  // -------------------------------------------------------------- what a slot stores

  function NonEmpty(bufs: seq<Buffer>): (r: seq<Buffer>)
    ensures |r| <= |bufs|
  {
    if bufs == [] then []
    else NonEmpty(bufs[..|bufs| - 1]) + if bufs[|bufs| - 1].len == 0 then [] else [bufs[|bufs| - 1]]
  }

  /** The stored element list: the non-empty buffers in order, then empty ones. */
  function StoredBufs(bufs: seq<Buffer>, maxSge: nat): (r: seq<Buffer>)
    requires |bufs| <= maxSge
    ensures |r| == maxSge
  {
    NonEmpty(bufs) + seq(maxSge - |NonEmpty(bufs)|, _ => Buffer(0, 0))
  }

  // -------------------------------------------------------------- scattering an inline payload

  type Memory = map<nat, byte>

  /** `memcpy` to address `addr`. */
  function Store(mem: Memory, addr: nat, data: seq<byte>): (r: Memory)
    ensures forall a :: a in r <==> a in mem || addr <= a < addr + |data|
    ensures forall a :: a in r ==> r[a] == if addr <= a < addr + |data| then data[a - addr] else mem[a]
    decreases |data|
  {
    if data == [] then mem else Store(mem[addr := data[0]], addr + 1, data[1..])
  }

  /** Fill the buffers in order until the payload is used up. */
  function Scatter(mem: Memory, bufs: seq<Buffer>, data: seq<byte>): Memory
    decreases |bufs|
  {
    if bufs == [] || data == [] then mem
    else
      var n := Min(bufs[0].len, |data|);
      Scatter(Store(mem, bufs[0].addr, data[..n]), bufs[1..], data[n..])
  }

  function Capacity(bufs: seq<Buffer>): nat {
    if bufs == [] then 0 else bufs[0].len + Capacity(bufs[1..])
  }

  /** One turn of filling buffers. */
  lemma ScatterStep(mem: Memory, bufs: seq<Buffer>, i: nat, data: seq<byte>)
    requires i < |bufs| && data != []
    ensures var n := Min(bufs[i].len, |data|);
            && Scatter(mem, bufs[i..], data) == Scatter(Store(mem, bufs[i].addr, data[..n]), bufs[i + 1..], data[n..])
            && Min(Capacity(bufs[i..]), |data|) == n + Min(Capacity(bufs[i + 1..]), |data| - n)
  {
  }

  ghost predicate Within(bufs: seq<Buffer>, a: nat) {
    exists i :: 0 <= i < |bufs| && bufs[i].addr <= a < bufs[i].addr + bufs[i].len
  }

  ghost predicate Apart(bufs: seq<Buffer>) {
    forall i, j :: 0 <= i < j < |bufs| ==>
      bufs[i].addr + bufs[i].len <= bufs[j].addr || bufs[j].addr + bufs[j].len <= bufs[i].addr
  }

  ghost predicate Mapped(mem: Memory, addr: nat, n: nat) {
    forall a :: addr <= a < addr + n ==> a in mem
  }

  ghost function Load(mem: Memory, addr: nat, n: nat): seq<byte>
    requires Mapped(mem, addr, n)
  {
    seq(n, i requires 0 <= i < n => mem[addr + i])
  }

  /** Reads `n` bytes back from the buffers, in order. */
  ghost function Gather(mem: Memory, bufs: seq<Buffer>, n: nat): Option<seq<byte>>
    decreases |bufs|
  {
    if n == 0 then Some([])
    else if bufs == [] then None
    else
      var k := Min(bufs[0].len, n);
      var rest := Gather(mem, bufs[1..], n - k);
      if rest.Some? && Mapped(mem, bufs[0].addr, k) then Some(Load(mem, bufs[0].addr, k) + rest.value)
      else None
  }

  lemma {:induction false} ScatterOutside(mem: Memory, bufs: seq<Buffer>, data: seq<byte>, a: nat)
    requires !Within(bufs, a)
    ensures (a in Scatter(mem, bufs, data)) == (a in mem)
    ensures a in mem ==> Scatter(mem, bufs, data)[a] == mem[a]
    decreases |bufs|
  {
    if bufs == [] || data == [] {
    } else {
      var n := Min(bufs[0].len, |data|);
      assert !(bufs[0].addr <= a < bufs[0].addr + bufs[0].len);
      forall i | 0 <= i < |bufs[1..]|
        ensures !(bufs[1..][i].addr <= a < bufs[1..][i].addr + bufs[1..][i].len)
      {
        assert bufs[1..][i] == bufs[i + 1];
      }
      ScatterOutside(Store(mem, bufs[0].addr, data[..n]), bufs[1..], data[n..], a);
    }
  }

  /** Filling later buffers leaves the first one alone. */
  lemma FirstKept(mem: Memory, bufs: seq<Buffer>, first: seq<byte>, data: seq<byte>)
    requires bufs != [] && Apart(bufs) && |first| <= bufs[0].len
    ensures var after := Scatter(Store(mem, bufs[0].addr, first), bufs[1..], data);
            Mapped(after, bufs[0].addr, |first|) && Load(after, bufs[0].addr, |first|) == first
  {
    hide Scatter;
    var mem', rest := Store(mem, bufs[0].addr, first), bufs[1..];
    var after := Scatter(mem', rest, data);
    forall a | bufs[0].addr <= a < bufs[0].addr + |first|
      ensures a in after && after[a] == first[a - bufs[0].addr]
    {
      assert !Within(rest, a) by {
        assert forall i :: 0 <= i < |rest| ==> rest[i] == bufs[i + 1];
      }
      ScatterOutside(mem', rest, data, a);
    }
  }

  /** What was scattered over separate buffers is read back unchanged, up to their capacity. */
  lemma {:induction false} ScatterRoundTrip(mem: Memory, bufs: seq<Buffer>, data: seq<byte>)
    requires Apart(bufs) && |data| <= Capacity(bufs)
    ensures Gather(Scatter(mem, bufs, data), bufs, |data|) == Some(data)
    decreases |bufs|
  {
    if data == [] {
    } else {
      var n := Min(bufs[0].len, |data|);
      hide Store;
      hide Load;
      hide Mapped;
      FirstKept(mem, bufs, data[..n], data[n..]);
      ScatterRoundTrip(Store(mem, bufs[0].addr, data[..n]), bufs[1..], data[n..]);
      assert data[..n] + data[n..] == data;
    }
  }

  /** Skipping the empty buffers of the request and padding with empty ones changes neither where the
      payload goes nor how much fits. */
  lemma ScatterStored(mem: Memory, bufs: seq<Buffer>, maxSge: nat, data: seq<byte>)
    requires |bufs| <= maxSge
    ensures Scatter(mem, StoredBufs(bufs, maxSge), data) == Scatter(mem, bufs, data)
    ensures Capacity(StoredBufs(bufs, maxSge)) == Capacity(bufs)
  {
    var pad := seq(maxSge - |NonEmpty(bufs)|, _ => Buffer(0, 0));
    ScatterNonEmpty(mem, bufs, pad, data);
    ScatterPad(mem, bufs, pad, data);
  }

  lemma {:induction false} ScatterPad(mem: Memory, bufs: seq<Buffer>, pad: seq<Buffer>, data: seq<byte>)
    requires forall i :: 0 <= i < |pad| ==> pad[i] == Buffer(0, 0)
    ensures Scatter(mem, bufs + pad, data) == Scatter(mem, bufs, data)
    ensures Capacity(bufs + pad) == Capacity(bufs)
    decreases |bufs| + |pad|
  {
    if bufs != [] {
      assert (bufs + pad)[1..] == bufs[1..] + pad;
      var n := Min(bufs[0].len, |data|);
      ScatterPad(Store(mem, bufs[0].addr, data[..n]), bufs[1..], pad, data[n..]);
    } else if pad != [] {
      assert bufs + pad == pad && [] + pad[1..] == pad[1..];
      StoreNothing(mem, 0);
      assert data[..0] == [] && data[0..] == data;
      ScatterPad(mem, [], pad[1..], data);
    }
  }

  lemma StoreNothing(mem: Memory, addr: nat)
    ensures Store(mem, addr, []) == mem
  {
  }

  lemma {:induction false} ScatterNonEmpty(mem: Memory, bufs: seq<Buffer>, after: seq<Buffer>, data: seq<byte>)
    ensures Scatter(mem, NonEmpty(bufs) + after, data) == Scatter(mem, bufs + after, data)
    ensures Capacity(NonEmpty(bufs) + after) == Capacity(bufs + after)
    decreases |bufs|
  {
    if bufs == [] {
    } else {
      var front, last := bufs[..|bufs| - 1], bufs[|bufs| - 1];
      assert bufs + after == front + ([last] + after);
      ScatterNonEmpty(mem, front, [last] + after, data);
      if last.len == 0 {
        assert NonEmpty(bufs) + after == NonEmpty(front) + after;
        ScatterDrop(mem, NonEmpty(front), last, after, data);
      } else {
        assert NonEmpty(bufs) + after == NonEmpty(front) + ([last] + after);
      }
    }
  }

  lemma {:induction false} ScatterDrop(mem: Memory, bufs: seq<Buffer>, empty: Buffer, after: seq<Buffer>,
      data: seq<byte>)
    requires empty.len == 0
    ensures Scatter(mem, bufs + ([empty] + after), data) == Scatter(mem, bufs + after, data)
    ensures Capacity(bufs + ([empty] + after)) == Capacity(bufs + after)
    decreases |bufs|
  {
    if bufs == [] {
      assert bufs + ([empty] + after) == [empty] + after && bufs + after == after;
      assert ([empty] + after)[1..] == after;
      assert data[..0] == [] && data[0..] == data;
      StoreNothing(mem, empty.addr);
    } else {
      assert (bufs + ([empty] + after))[1..] == bufs[1..] + ([empty] + after);
      assert (bufs + after)[1..] == bufs[1..] + after;
      var n := Min(bufs[0].len, |data|);
      ScatterDrop(Store(mem, bufs[0].addr, data[..n]), bufs[1..], empty, after, data[n..]);
    }
  }
}

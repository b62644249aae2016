/** The completion ring on values: the owner (phase) bit protocol and the effect of writing one
    slot. */
module CompletionRing {
  import opened Words

  /** Everything in a CQE but its owner bit. */
  datatype CqeBody = CqeBody(
    isRecv: bool, isJetty: bool, flushDone: bool, status: nat, substatus: nat,
    entryIdx: nat, localId: nat, rmtId: nat, tpn: nat, byteCnt: u32, userData: u64, data: u64,
    payload: Option<seq<byte>>)  // the inline data of a receive

  datatype Cqe = Cqe(owner: bool, body: CqeBody)

  /** The owner bit the device writes for the n-th CQE: set on even laps. */
  predicate Fresh(n: nat, cnt: nat)
    requires cnt > 0
  {
    (n / cnt) % 2 == 0
  }

  /** `get_next_cqe` on a slot and a 32-bit index: true when the slot holds an unread CQE. */
  predicate Readable(c: Cqe, n32: u32, cnt: nat)
    requires cnt > 0
  {
    c.owner != ((n32 / cnt) % 2 == 1)
  }

  /** Slots lo, lo+1, ... hold `bodies` with the owner bits of those positions. */
  ghost predicate Holds(ring: seq<Cqe>, cnt: nat, lo: nat, bodies: seq<CqeBody>) {
    && 0 < cnt == |ring|
    && forall n: nat :: lo <= n < lo + |bodies| ==> ring[Slot(n, cnt)] == Cqe(Fresh(n, cnt), bodies[n - lo])
  }

  /** Positions lo .. hi read as not yet produced. */
  ghost predicate Stale(ring: seq<Cqe>, cnt: nat, lo: nat, hi: nat) {
    && 0 < cnt == |ring|
    && forall n: nat :: lo <= n < hi ==> ring[Slot(n, cnt)].owner != Fresh(n, cnt)
  }

  /** The ring with unread CQEs `queue` from position `head` on: every other position of the coming
      lap, the vacated ones included, reads as not yet produced. */
  ghost predicate RingOk(ring: seq<Cqe>, cnt: nat, head: nat, queue: seq<CqeBody>) {
    && |queue| <= cnt
    && Holds(ring, cnt, head, queue)
    && Stale(ring, cnt, head + |queue|, head + |queue| + cnt)
  }

  /** The host sees a CQE at `n` exactly when its owner bit is the fresh one, on any lap and across
      the wrap of the 32-bit index. */
  lemma ReadableExact(c: Cqe, n: nat, cnt: nat)
    requires RingCount(cnt) && cnt > 0
    ensures Readable(c, Wrap32(n), cnt) <==> c.owner == Fresh(n, cnt)
  {
    CounterLap(n, cnt);
    assert (n / cnt) % 2 == 0 || (n / cnt) % 2 == 1;
  }

  lemma FreshFlips(n: nat, cnt: nat)
    requires cnt > 0
    ensures Slot(n + cnt, cnt) == Slot(n, cnt) && Fresh(n + cnt, cnt) == !Fresh(n, cnt)
  {
    NextLap(n, cnt);
    assert (n / cnt) % 2 == 0 || (n / cnt) % 2 == 1;
    Parity(n / cnt);
  }

  lemma Parity(q: nat)
    ensures (q + 1) % 2 == 0 <==> q % 2 == 1
  {
  }

  /** `get_next_cqe` at the consumer index: a CQE exactly when one is unread. */
  lemma NextExact(ring: seq<Cqe>, cnt: nat, head: nat, queue: seq<CqeBody>, n: nat)
    requires RingCount(cnt) && RingOk(ring, cnt, head, queue) && head <= n < head + |queue| + cnt
    ensures Readable(ring[Slot(n, cnt)], Wrap32(n), cnt) <==> n < head + |queue|
    ensures n < head + |queue| ==> ring[Slot(n, cnt)].body == queue[n - head]
  {
    hide Wrap32;
    hide Slot;
    hide Fresh;
    hide Readable;
    ReadableExact(ring[Slot(n, cnt)], n, cnt);
  }

  /** A write to position `d` leaves the other positions of the lap alone. */
  lemma WriteSpares(ring: seq<Cqe>, cnt: nat, d: nat, c: Cqe, n: nat)
    requires 0 < cnt == |ring|
    ensures (n < d < n + cnt || d < n < d + cnt) ==> ring[Slot(d, cnt) := c][Slot(n, cnt)] == ring[Slot(n, cnt)]
    ensures ring[Slot(d, cnt) := c][Slot(d, cnt)] == c
  {
    hide Slot;
    if n < d < n + cnt {
      SlotsDistinct(n, d, cnt);
    } else if d < n < d + cnt {
      SlotsDistinct(d, n, cnt);
    }
  }

  /** The device writes the next CQE: the queue grows by it. */
  lemma ProduceOk(ring: seq<Cqe>, cnt: nat, head: nat, queue: seq<CqeBody>, body: CqeBody)
    requires RingOk(ring, cnt, head, queue) && |queue| < cnt
    ensures var d := head + |queue|;
            RingOk(ring[Slot(d, cnt) := Cqe(Fresh(d, cnt), body)], cnt, head, queue + [body])
  {
    hide Slot;
    hide Fresh;
    var d := head + |queue|;
    var c := Cqe(Fresh(d, cnt), body);
    var ring' := ring[Slot(d, cnt) := c];
    forall n: nat | head <= n < d + 1
      ensures ring'[Slot(n, cnt)] == Cqe(Fresh(n, cnt), (queue + [body])[n - head])
    {
      WriteSpares(ring, cnt, d, c, n);
    }
    forall n: nat | d + 1 <= n < d + 1 + cnt
      ensures ring'[Slot(n, cnt)].owner != Fresh(n, cnt)
    {
      WriteSpares(ring, cnt, d, c, n);
      FreshFlips(d, cnt);
    }
  }

  /** The consumer moves on: the first CQE leaves the queue and its slot is free for the next lap. */
  lemma ConsumeOk(ring: seq<Cqe>, cnt: nat, head: nat, queue: seq<CqeBody>)
    requires RingOk(ring, cnt, head, queue) && queue != []
    ensures RingOk(ring, cnt, head + 1, queue[1..])
  {
  }

  // ---------------------------------------------------------------- in-place cleaning

  /** The CQEs that do not belong to the deleted jetty, in order. */
  function Keep(q: seq<CqeBody>, jetty: nat): (r: seq<CqeBody>)
    ensures |r| <= |q|
  {
    if q == [] then []
    else if q[0].localId == jetty then Keep(q[1..], jetty)
    else [q[0]] + Keep(q[1..], jetty)
  }

  /** Where the backward pass stands: positions before `p` are untouched, the kept CQEs of the rest lie
      directly below position head + |q|, and every slot still carries the owner bit of its position.
      `later` are the CQEs the device wrote since the pass began. */
  ghost predicate Cleaning(ring: seq<Cqe>, cnt: nat, head: nat, q: seq<CqeBody>, later: seq<CqeBody>,
      jetty: nat, p: nat, freed: nat) {
    && head <= p <= head + |q| && |q| + |later| <= cnt
    && freed + |Keep(q[p - head..], jetty)| == head + |q| - p
    && Holds(ring, cnt, head, q[..p - head])
    && Holds(ring, cnt, p + freed, Keep(q[p - head..], jetty))
    && Holds(ring, cnt, head + |q|, later)
    && Stale(ring, cnt, p + cnt, p + freed + cnt)
    && Stale(ring, cnt, head + |q| + |later|, head + cnt)
  }

  lemma CleaningStart(ring: seq<Cqe>, cnt: nat, head: nat, q: seq<CqeBody>, jetty: nat)
    requires RingOk(ring, cnt, head, q)
    ensures Cleaning(ring, cnt, head, q, [], jetty, head + |q|, 0)
  {
  }

  lemma CleaningIdle(ring: seq<Cqe>, cnt: nat, head: nat, queue: seq<CqeBody>, jetty: nat)
    requires RingOk(ring, cnt, head, queue)
    ensures Cleaning(ring, cnt, head, [], queue, jetty, head, 0)
  {
  }

  lemma HoldsPrefix(ring: seq<Cqe>, cnt: nat, lo: nat, b: seq<CqeBody>, i: nat)
    requires Holds(ring, cnt, lo, b) && i <= |b|
    ensures Holds(ring, cnt, lo, b[..i])
  {
  }

  lemma HoldsCons(ring: seq<Cqe>, cnt: nat, lo: nat, x: CqeBody, b: seq<CqeBody>)
    requires Holds(ring, cnt, lo + 1, b) && ring[Slot(lo, cnt)] == Cqe(Fresh(lo, cnt), x)
    ensures Holds(ring, cnt, lo, [x] + b)
  {
  }

  lemma HoldsWrite(ring: seq<Cqe>, cnt: nat, lo: nat, b: seq<CqeBody>, d: nat, c: Cqe)
    requires Holds(ring, cnt, lo, b) && (lo + |b| <= d < lo + cnt || (d < lo && lo + |b| <= d + cnt))
    ensures Holds(ring[Slot(d, cnt) := c], cnt, lo, b)
  {
    hide Slot;
    hide Fresh;
    forall n: nat | lo <= n < lo + |b|
      ensures ring[Slot(d, cnt) := c][Slot(n, cnt)] == Cqe(Fresh(n, cnt), b[n - lo])
    {
      WriteSpares(ring, cnt, d, c, n);
    }
  }

  /** Replacing a CQE without changing its owner bit keeps every position stale that was. */
  lemma StaleRewrite(ring: seq<Cqe>, cnt: nat, lo: nat, hi: nat, d: nat, c: Cqe)
    requires Stale(ring, cnt, lo, hi) && c.owner == ring[Slot(d, cnt)].owner
    ensures Stale(ring[Slot(d, cnt) := c], cnt, lo, hi)
  {
  }

  lemma StaleWrite(ring: seq<Cqe>, cnt: nat, lo: nat, hi: nat, d: nat, c: Cqe)
    requires Stale(ring, cnt, lo, hi) && d < lo && hi <= d + cnt
    ensures Stale(ring[Slot(d, cnt) := c], cnt, lo, hi)
  {
    hide Slot;
    hide Fresh;
    forall n: nat | lo <= n < hi
      ensures ring[Slot(d, cnt) := c][Slot(n, cnt)].owner != Fresh(n, cnt)
    {
      WriteSpares(ring, cnt, d, c, n);
    }
  }

  /** The device may go on writing while the pass runs. */
  lemma CleaningProduce(ring: seq<Cqe>, cnt: nat, head: nat, q: seq<CqeBody>, later: seq<CqeBody>, jetty: nat,
      p: nat, freed: nat, body: CqeBody)
    requires Cleaning(ring, cnt, head, q, later, jetty, p, freed) && |q| + |later| < cnt
    ensures var d := head + |q| + |later|;
            Cleaning(ring[Slot(d, cnt) := Cqe(Fresh(d, cnt), body)], cnt, head, q, later + [body], jetty, p, freed)
  {
    hide Slot;
    hide Fresh;
    var d := head + |q| + |later|;
    var c := Cqe(Fresh(d, cnt), body);
    HoldsWrite(ring, cnt, head, q[..p - head], d, c);
    HoldsWrite(ring, cnt, p + freed, Keep(q[p - head..], jetty), d, c);
    HoldsWrite(ring, cnt, head + |q|, later, d, c);
    WriteSpares(ring, cnt, d, c, d);
    StaleWrite(ring, cnt, p + cnt, p + freed + cnt, d, c);
    StaleWrite(ring, cnt, d + 1, head + cnt, d, c);
  }

  /** A CQE of the jetty is dropped: its slot joins the vacated ones. */
  lemma CleaningDrop(ring: seq<Cqe>, cnt: nat, head: nat, q: seq<CqeBody>, later: seq<CqeBody>, jetty: nat,
      p: nat, freed: nat)
    requires Cleaning(ring, cnt, head, q, later, jetty, p, freed) && p > head && q[p - 1 - head].localId == jetty
    ensures Cleaning(ring, cnt, head, q, later, jetty, p - 1, freed + 1)
  {
    hide Slot;
    hide Fresh;
    var i := p - 1 - head;
    assert q[i..][0] == q[i] && q[i..][1..] == q[p - head..];
    HoldsPrefix(ring, cnt, head, q[..p - head], i);
    assert q[..p - head][..i] == q[..i];
    FreshFlips(p - 1, cnt);
    assert ring[Slot(p - 1, cnt)] == Cqe(Fresh(p - 1, cnt), q[..p - head][i]);
  }

  /** Any other CQE moves up over the vacated slots and takes the owner bit of its new place. */
  lemma CleaningMove(ring: seq<Cqe>, cnt: nat, head: nat, q: seq<CqeBody>, later: seq<CqeBody>, jetty: nat,
      p: nat, freed: nat)
    requires Cleaning(ring, cnt, head, q, later, jetty, p, freed) && p > head && q[p - 1 - head].localId != jetty
    ensures var src, dst := ring[Slot(p - 1, cnt)], ring[Slot(p - 1 + freed, cnt)];
            Cleaning(if freed == 0 then ring else ring[Slot(p - 1 + freed, cnt) := src.(owner := dst.owner)],
                     cnt, head, q, later, jetty, p - 1, freed)
  {
    hide Slot;
    hide Fresh;
    var i, d := p - 1 - head, p - 1 + freed;
    var kept := Keep(q[p - head..], jetty);
    assert q[i..][0] == q[i] && q[i..][1..] == q[p - head..];
    HoldsPrefix(ring, cnt, head, q[..p - head], i);
    assert q[..p - head][..i] == q[..i];
    assert ring[Slot(p - 1, cnt)] == Cqe(Fresh(p - 1, cnt), q[..p - head][i]);
    FreshFlips(p - 1, cnt);
    if freed == 0 {
      HoldsCons(ring, cnt, p - 1, q[i], kept);
    } else {
      FreshFlips(d, cnt);
      assert ring[Slot(d + cnt, cnt)].owner != Fresh(d + cnt, cnt);
      var c := ring[Slot(p - 1, cnt)].(owner := ring[Slot(d, cnt)].owner);
      MoveOk(ring, cnt, head, q, later, jetty, p, freed, c);
    }
  }

  lemma MoveOk(ring: seq<Cqe>, cnt: nat, head: nat, q: seq<CqeBody>, later: seq<CqeBody>, jetty: nat, p: nat,
      freed: nat, c: Cqe)
    requires Cleaning(ring, cnt, head, q, later, jetty, p, freed) && p > head && freed > 0
    requires var i := p - 1 - head;
             && q[i].localId != jetty && c == Cqe(Fresh(p - 1 + freed, cnt), q[i])
             && c.owner == ring[Slot(p - 1 + freed, cnt)].owner
    requires ring[Slot(p - 1 + cnt, cnt)].owner != Fresh(p - 1 + cnt, cnt)
    ensures Cleaning(ring[Slot(p - 1 + freed, cnt) := c], cnt, head, q, later, jetty, p - 1, freed)
  {
    hide Slot;
    hide Fresh;
    var i, d := p - 1 - head, p - 1 + freed;
    var kept := Keep(q[p - head..], jetty);
    var ring' := ring[Slot(d, cnt) := c];
    assert q[i..][0] == q[i] && q[i..][1..] == q[p - head..];
    assert q[..p - head][..i] == q[..i];
    HoldsPrefix(ring, cnt, head, q[..p - head], i);
    HoldsWrite(ring, cnt, head, q[..i], d, c);
    HoldsWrite(ring, cnt, p + freed, kept, d, c);
    HoldsWrite(ring, cnt, head + |q|, later, d, c);
    HoldsCons(ring', cnt, d, q[i], kept);
    assert Stale(ring, cnt, p - 1 + cnt, p - 1 + freed + cnt);
    StaleRewrite(ring, cnt, p - 1 + cnt, p - 1 + freed + cnt, d, c);
    StaleRewrite(ring, cnt, head + |q| + |later|, head + cnt, d, c);
  }

  /** Cleaning is a stable filter: what remains is the queue without the CQEs of the jetty, in order,
      with correct owner bits, and the vacated slots read as not yet produced. */
  lemma CleaningEnd(ring: seq<Cqe>, cnt: nat, head: nat, q: seq<CqeBody>, later: seq<CqeBody>, jetty: nat, freed: nat)
    requires Cleaning(ring, cnt, head, q, later, jetty, head, freed) && 0 < cnt
    ensures freed == |q| - |Keep(q, jetty)| && RingOk(ring, cnt, head + freed, Keep(q, jetty) + later)
  {
    hide Slot;
    hide Fresh;
    assert q[0..] == q;
    var kept := Keep(q, jetty);
    var all, lo := kept + later, head + freed;
    assert Holds(ring, cnt, lo, all);
    forall n: nat | lo + |all| <= n < lo + |all| + cnt
      ensures ring[Slot(n, cnt)].owner != Fresh(n, cnt)
    {
      if n >= lo + cnt {
        var m := n - cnt;
        assert ring[Slot(m, cnt)] == Cqe(Fresh(m, cnt), all[m - lo]);
        FreshFlips(m, cnt);
      }
    }
  }
}

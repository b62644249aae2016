/** A receive queue, shared by any number of jetties, and the completion queue that reports its receives.

    Every slot in flight was taken by one jetty, its owner, and is either still with the device or
    reported by exactly one unread CQE of that jetty.  Posting, fetching, reporting, polling and cleaning
    keep this. */
module ReceivePath {
  import opened Words
  import opened BitWords
  import opened CompletionRing
  import opened CompletionQueue
  import opened ReceiveRing
  import opened ReceiveQueue

  /** No receive of the jetties in `ids` is reported twice. */
  ghost predicate Once(reports: seq<Report>, ids: set<nat>) {
    forall i, j :: 0 <= i < j < |reports| && reports[i].localId in ids ==> reports[i] != reports[j]
  }

  /** The jetty of the report has taken the slot. */
  ghost predicate Took(owner: map<nat, nat>, r: Report) {
    r.entry in owner && owner[r.entry] == r.localId
  }

  /** `reports` are the unread CQEs' receives, `may` those the device may still report, and `owner` says
      which of the jetties took a slot. */
  ghost predicate Accounted(reports: seq<Report>, may: set<Report>, owner: map<nat, nat>, ids: set<nat>) {
    && Once(reports, ids) && (forall r :: r in may && r.localId in ids ==> r !in reports)
    && (forall e :: e in owner ==> owner[e] in ids)
    && (forall r: Report :: r.localId in ids ==> (Took(owner, r) <==> r in reports || r in may))
  }

  ghost predicate Joint(cq: CompletionQueue, rq: ReceiveQueue, owner: map<nat, nat>, ids: set<nat>)
    reads cq, cq.ring, rq, rq.bitmap, rq.ring, rq.wrid, rq.qbuf
  {
    && cq.Valid() && rq.Valid() && rq.published == rq.posted && cq.reportable.Some?
    && ids != {} && owner.Keys == rq.inFlight
    && Accounted(ReportsOf(cq.queue), cq.reportable.value, owner, ids)
  }

  /** All slots: free, waiting in the index ring, with the device, or reported and not yet polled. */
  lemma {:induction false} EverySlotOnce(cq: CompletionQueue, rq: ReceiveQueue, owner: map<nat, nat>, ids: set<nat>)
    requires Joint(cq, rq, owner, ids)
    ensures var reported := set e | e in owner && Report(owner[e], e) in ReportsOf(cq.queue);
      var held := set e | e in owner && Report(owner[e], e) in cq.reportable.value;
      && reported !! held && reported + held == rq.inFlight
      && |Marked(rq.bitmap[..])| + |rq.queue| + |held| + |reported| == rq.cnt
  {
    hide CompletionQueue.Valid;
    hide ReportsOf;
    SplitInFlight(ReportsOf(cq.queue), cq.reportable.value, owner, ids);
    hide Accounted;
    rq.EverySlot();
  }

  lemma {:induction false} SplitInFlight(reports: seq<Report>, may: set<Report>, owner: map<nat, nat>, ids: set<nat>)
    requires Accounted(reports, may, owner, ids)
    ensures var reported := set e | e in owner && Report(owner[e], e) in reports;
      var held := set e | e in owner && Report(owner[e], e) in may;
      reported !! held && reported + held == owner.Keys && |reported| + |held| == |owner.Keys|
  {
    var reported := set e | e in owner && Report(owner[e], e) in reports;
    var held := set e | e in owner && Report(owner[e], e) in may;
    forall e | e in owner
      ensures e in reported <==> e !in held
    {
      assert Took(owner, Report(owner[e], e));
    }
    assert reported + held == owner.Keys && reported !! held;
  }

  // -------------------------------------------------------------- reports

  lemma {:induction false} ReportsFirst(q: seq<CqeBody>)
    requires q != []
    ensures ReportsOf(q) == ReportOf(q[0]) + ReportsOf(q[1..])
  {
    assert ReportsOf([q[0]]) == ReportOf(q[0]) by {
      assert [q[0]][..0] == [] && ReportsOf([]) == [];
    }
    ReportsAppend([q[0]], q[1..]);
    assert [q[0]] + q[1..] == q;
  }

  lemma {:induction false} OnceAppend(a: seq<Report>, b: seq<Report>, ids: set<nat>)
    ensures Once(a + b, ids) <==> Once(a, ids) && Once(b, ids) && forall r :: r in a && r.localId in ids ==> r !in b
  {
    var c := a + b;
    if Once(c, ids) {
      forall i, j | 0 <= i < j < |b| && b[i].localId in ids
        ensures b[i] != b[j]
      {
        assert c[|a| + i] == b[i] && c[|a| + j] == b[j];
      }
      forall r | r in a && r.localId in ids
        ensures r !in b
      {
        var i :| 0 <= i < |a| && a[i] == r;
        assert c[i] == r;
        assert forall j :: 0 <= j < |b| ==> c[|a| + j] == b[j];
      }
      assert forall i :: 0 <= i < |a| ==> c[i] == a[i];
    }
    if Once(a, ids) && Once(b, ids) && forall r :: r in a && r.localId in ids ==> r !in b {
      forall i, j | 0 <= i < j < |c| && c[i].localId in ids
        ensures c[i] != c[j]
      {
        if i < |a| <= j {
          assert a[i] in a && b[j - |a|] in b;
        }
      }
    }
  }

  /** Cleaning reports every receive of the jetty once, and keeps exactly the reports of the others. */
  lemma {:induction false} CleanReports(q: seq<CqeBody>, jetty: nat, ids: set<nat>)
    requires Once(ReportsOf(q), ids)
    ensures jetty in ids ==> NoDup(DroppedReceives(q, jetty))
    ensures Once(ReportsOf(Keep(q, jetty)), ids)
    ensures forall e: nat :: e in DroppedReceives(q, jetty) <==> Report(jetty, e) in ReportsOf(q)
    ensures forall r :: r in ReportsOf(Keep(q, jetty)) <==> r in ReportsOf(q) && r.localId != jetty
    decreases |q|
  {
    if q == [] {
    } else {
      var b, rest := q[0], q[1..];
      ReportsFirst(q);
      OnceAppend(ReportOf(b), ReportsOf(rest), ids);
      CleanReports(rest, jetty, ids);
      hide ReportsOf;
      if b.localId == jetty {
        if b.isRecv && jetty in ids {
          assert Report(jetty, b.entryIdx) in ReportOf(b);
          NoDupAppend(DroppedReceives(rest, jetty), [b.entryIdx]);
        }
      } else {
        ReportsFirst([b] + Keep(rest, jetty));
        assert ([b] + Keep(rest, jetty))[1..] == Keep(rest, jetty);
        OnceAppend(ReportOf(b), ReportsOf(Keep(rest, jetty)), ids);
      }
    }
  }

  // -------------------------------------------------------------- the accounts

  lemma {:induction false} AccountedReport(q: seq<CqeBody>, may: set<Report>, q': seq<CqeBody>, may': Option<set<Report>>,
      owner: map<nat, nat>, ids: set<nat>)
    requires Accounted(ReportsOf(q), may, owner, ids) && Extends(q, Some(may), q', may')
    ensures may'.Some? && Accounted(ReportsOf(q'), may'.value, owner, ids)
  {
    var w := q'[|q|..];
    assert q' == q + w;
    ReportsAppend(q, w);
    hide ReportsOf;
    OnceAppend(ReportsOf(q), ReportsOf(w), ids);
    hide NoDup;
  }

  lemma {:induction false} AccountedTake(reports: seq<Report>, may: set<Report>,
      owner: map<nat, nat>, ids: set<nat>, took: map<nat, nat>)
    requires Accounted(reports, may, owner, ids) && owner.Keys !! took.Keys && forall e :: e in took ==> took[e] in ids
    ensures Accounted(reports, may + Reports(took), owner + took, ids)
  {
    hide Once;
    forall r: Report | r.localId in ids
      ensures Took(owner + took, r) <==> r in reports || r in may + Reports(took)
      ensures r in may + Reports(took) ==> r !in reports
    {
      ReportsHas(took, r);
      assert Took(owner, r) <==> r in reports || r in may;
    }
  }

  /** The receives that were just taken. */
  function Reports(took: map<nat, nat>): set<Report> {
    set e | e in took :: Report(took[e], e)
  }

  lemma ReportsHas(took: map<nat, nat>, r: Report)
    ensures r in Reports(took) <==> Took(took, r)
  {
    if Took(took, r) {
      assert r == Report(took[r.entry], r.entry);
    }
  }

  lemma {:induction false} AccountedOther(reports: seq<Report>, may: set<Report>,
      owner: map<nat, nat>, ids: set<nat>, r: Report)
    requires Accounted(reports, may, owner, ids) && r.localId !in ids
    ensures Accounted(reports, may + {r}, owner, ids)
  {
  }

  /** A receive CQE of one of the jetties. */
  predicate Mine(b: CqeBody, ids: set<nat>) { b.isRecv && b.localId in ids }

  lemma {:induction false} FirstReported(q: seq<CqeBody>, ids: set<nat>)
    requires q != [] && Mine(q[0], ids)
    ensures Report(q[0].localId, q[0].entryIdx) in ReportsOf(q)
  {
    ReportsFirst(q);
  }

  lemma {:induction false} ReportedTook(r: Report, reports: seq<Report>, may: set<Report>,
      owner: map<nat, nat>, ids: set<nat>)
    requires Accounted(reports, may, owner, ids) && r in reports && r.localId in ids
    ensures Took(owner, r)
  {
    hide Took;
  }

  lemma {:induction false} AccountedPoll(q: seq<CqeBody>, may: set<Report>, owner: map<nat, nat>, ids: set<nat>)
    requires Accounted(ReportsOf(q), may, owner, ids) && q != []
    ensures var b := q[0];
      if Mine(b, ids)
      then b.entryIdx in owner && Accounted(ReportsOf(q[1..]), may, owner - {b.entryIdx}, ids)
      else Accounted(ReportsOf(q[1..]), may, owner, ids)
  {
    var b, rest := q[0], ReportsOf(q[1..]);
    ReportsFirst(q);
    OnceAppend(ReportOf(b), rest, ids);
    if Mine(b, ids) {
      FirstReported(q, ids);
      ReportedTook(Report(b.localId, b.entryIdx), ReportsOf(q), may, owner, ids);
      FirstGone(Report(b.localId, b.entryIdx), rest, may, owner, ids);
    }
  }

  lemma {:induction false} FirstGone(first: Report, rest: seq<Report>, may: set<Report>, owner: map<nat, nat>, ids: set<nat>)
    requires Accounted([first] + rest, may, owner, ids) && Took(owner, first) && first.localId in ids
    requires Once(rest, ids) && first !in rest
    ensures Accounted(rest, may, owner - {first.entry}, ids)
  {
    hide Once;
    forall r: Report | r.localId in ids
      ensures Took(owner - {first.entry}, r) <==> r in rest || r in may
    {
      assert Took(owner, r) <==> r in [first] + rest || r in may;
    }
  }

  lemma {:induction false} AccountedClean(q: seq<CqeBody>, later: seq<CqeBody>, may: set<Report>,
      owner: map<nat, nat>, ids: set<nat>, jetty: nat)
    requires Accounted(ReportsOf(q + later), may, owner, ids)
    ensures var recvs := DroppedReceives(q, jetty);
      if jetty in ids
      then && NoDup(recvs) && (forall e :: e in recvs ==> e in owner && owner[e] == jetty)
           && Accounted(ReportsOf(Keep(q, jetty) + later), may, owner - Elems(recvs), ids)
      else Accounted(ReportsOf(Keep(q, jetty) + later), may, owner, ids)
  {
    hide ReportsOf;
    hide Keep;
    hide DroppedReceives;
    hide NoDup;
    hide Once;
    assert Once(ReportsOf(q + later), ids) by {
      hide Took;
    }
    hide Accounted;
    ReportsAppend(q, later);
    ReportsAppend(Keep(q, jetty), later);
    OnceAppend(ReportsOf(q), ReportsOf(later), ids);
    CleanReports(q, jetty, ids);
    OnceAppend(ReportsOf(Keep(q, jetty)), ReportsOf(later), ids);
    LessOf(ReportsOf(q), ReportsOf(Keep(q, jetty)), ReportsOf(later), may, owner, ids, jetty,
      Elems(DroppedReceives(q, jetty)));
  }

  /** The accounts without the reports of one jetty. */
  lemma {:induction false} LessOf(all: seq<Report>, kept: seq<Report>, behind: seq<Report>,
      may: set<Report>, owner: map<nat, nat>, ids: set<nat>, jetty: nat, gone: set<nat>)
    requires Accounted(all + behind, may, owner, ids) && Once(kept + behind, ids)
    requires forall r :: r in kept <==> r in all && r.localId != jetty
    requires forall e: nat :: e in gone <==> Report(jetty, e) in all
    requires forall r :: r in all && r.localId in ids ==> r !in behind
    ensures jetty in ids ==> forall e :: e in gone ==> e in owner && owner[e] == jetty
    ensures Accounted(kept + behind, may, if jetty in ids then owner - gone else owner, ids)
  {
    hide Once;
    forall r: Report | r.localId in ids
      ensures Took(owner, r) <==> r in all || r in behind || r in may
      ensures Took(if jetty in ids then owner - gone else owner, r) <==> r in kept || r in behind || r in may
    {
      assert r in all + behind <==> r in all || r in behind;
      assert r == Report(r.localId, r.entry);
    }
    if jetty in ids {
      forall e | e in gone
        ensures e in owner && owner[e] == jetty
      {
        assert Took(owner, Report(jetty, e));
      }
    }
  }

  // -------------------------------------------------------------- the device

  /** Some jetty takes each of the slots. */
  method Claim(taken: seq<nat>, ids: set<nat>) returns (took: map<nat, nat>)
    requires ids != {}
    ensures took.Keys == Elems(taken) && forall e :: e in took ==> took[e] in ids
  {
    took := map[];
    for i := 0 to |taken|
      invariant took.Keys == Elems(taken[..i]) && forall e :: e in took ==> took[e] in ids
    {
      var id :| id in ids;
      took := took[taken[i] := id];
      assert Elems(taken[..i + 1]) == Elems(taken[..i]) + {taken[i]};
    }
    assert taken[..|taken|] == taken;
  }

  /** The slots in `taken` have just gone in flight. */
  method TakeSlots(cq: CompletionQueue, rq: ReceiveQueue, ghost owner: map<nat, nat>, ids: set<nat>, taken: seq<nat>)
    returns (ghost owner': map<nat, nat>)
    requires cq.Valid() && rq.Valid() && rq.published == rq.posted && cq.reportable.Some? && ids != {}
    requires rq.inFlight == owner.Keys + Elems(taken) && owner.Keys !! Elems(taken)
    requires Accounted(ReportsOf(cq.queue), cq.reportable.value, owner, ids)
    modifies cq`reportable
    ensures Joint(cq, rq, owner', ids) && owner'.Keys == owner.Keys + Elems(taken)
    ensures forall e :: e in owner ==> owner'[e] == owner[e]
  {
    hide RingOk;
    hide ReceiveQueue.Valid;
    hide ReportsOf;
    var took := Claim(taken, ids);
    AccountedTake(ReportsOf(cq.queue), cq.reportable.value, owner, ids, took);
    hide Accounted;
    hide Reports;
    cq.reportable := Some(cq.reportable.value + Reports(took));
    owner' := owner + took;
  }

  /** The device fetches posted slots for incoming messages. */
  method DeviceFetches(cq: CompletionQueue, rq: ReceiveQueue, ghost owner: map<nat, nat>, ids: set<nat>)
    returns (ghost owner': map<nat, nat>)
    requires Joint(cq, rq, owner, ids)
    modifies cq`reportable, rq`fetched, rq`queue, rq`inFlight
    ensures Joint(cq, rq, owner', ids)
    ensures forall e :: e in owner ==> e in owner' && owner'[e] == owner[e]
  {
    hide CompletionQueue.Valid;
    hide ReceiveQueue.Valid;
    hide ReportsOf;
    hide Accounted;
    NothingAdded(rq.pending, rq.queue, rq.inFlight, []);
    var taken := rq.DeviceFetches(rq.queue, rq.inFlight, [], []);
    owner' := TakeSlots(cq, rq, owner, ids, taken);
  }

  /** The device reports some of the receives it holds. */
  method DeviceReports(cq: CompletionQueue, rq: ReceiveQueue, ghost owner: map<nat, nat>, ghost ids: set<nat>)
    returns (ghost written: seq<CqeBody>)
    requires Joint(cq, rq, owner, ids)
    modifies cq`prod, cq`queue, cq`reportable, cq.ring
    ensures Joint(cq, rq, owner, ids) && cq.queue == old(cq.queue) + written
  {
    hide CompletionQueue.Valid;
    hide ReceiveQueue.Valid;
    hide ReportsOf;
    hide Accounted;
    hide Extends;
    ghost var q, may := cq.queue, cq.reportable.value;
    written := cq.Device();
    AccountedReport(q, may, cq.queue, cq.reportable, owner, ids);
  }

  /** A receive of another queue becomes one that the device may report here. */
  method TakenElsewhere(cq: CompletionQueue, rq: ReceiveQueue, ghost owner: map<nat, nat>, ghost ids: set<nat>,
      r: Report)
    requires Joint(cq, rq, owner, ids) && r.localId !in ids
    modifies cq`reportable
    ensures Joint(cq, rq, owner, ids) && cq.reportable == Some(old(cq.reportable).value + {r})
  {
    hide RingOk;
    hide ReceiveQueue.Valid;
    hide ReportsOf;
    AccountedOther(ReportsOf(cq.queue), cq.reportable.value, owner, ids, r);
    hide Accounted;
    cq.reportable := Some(cq.reportable.value + {r});
  }

  // -------------------------------------------------------------- the host

  /** New queues. */
  method Setup(cqes: nat, slots: nat, maxSge: nat, wrids: nat, ids: set<nat>)
    returns (cq: CompletionQueue, rq: ReceiveQueue)
    requires RingCount(cqes) && 0 < cqes < 0x40_0000 && ids != {}
    requires RingCount(slots) && 64 <= slots <= 0x1_0000 && maxSge > 0 && RingCount(wrids) && slots <= wrids
    ensures Joint(cq, rq, map[], ids) && cq.queue == [] && rq.pending == map[]
    ensures fresh(cq) && fresh(cq.ring) && fresh(rq) && fresh(rq.bitmap) && fresh(rq.ring) && fresh(rq.wrid)
      && fresh(rq.qbuf)
  {
    hide RingOk;
    hide ReceiveQueue.Valid;
    cq := new CompletionQueue(cqes);
    cq.reportable := Some({});
    rq := new ReceiveQueue(slots, maxSge, wrids);
  }

  /** Receives are posted; the device may fetch meanwhile. */
  method Post(cq: CompletionQueue, rq: ReceiveQueue, ghost owner: map<nat, nat>, ids: set<nat>, wrs: seq<Recv>)
    returns (st: Status, bad: nat, ghost owner': map<nat, nat>)
    requires Joint(cq, rq, owner, ids)
    modifies cq`reportable, rq, rq.bitmap, rq.ring, rq.wrid, rq.qbuf
    ensures Joint(cq, rq, owner', ids) && rq.posted == old(rq.posted) + bad
    ensures forall e :: e in owner ==> e in owner' && owner'[e] == owner[e]
  {
    hide CompletionQueue.Valid;
    hide ReceiveQueue.Valid;
    hide ReportsOf;
    hide Accounted;
    ghost var slots;
    var taken;
    st, bad, slots, taken := rq.PostList(wrs);
    owner' := TakeSlots(cq, rq, owner, ids, taken);
  }

  /** What the application learns about a receive. */
  datatype Received = Received(ctx: u64, len: nat, status: nat, substatus: nat)

  /** A receive whose inline data exceeds the posted buffers is a local length error. */
  function Outcome(b: CqeBody, wr: Recv): Received {
    match b.payload
    case None => Received(wr.ctx, b.byteCnt, b.status, b.substatus)
    case Some(data) =>
      if Capacity(wr.bufs) < |data| then Received(wr.ctx, Capacity(wr.bufs), 2, 1)
      else Received(wr.ctx, |data|, b.status, b.substatus)
  }

  function Delivered(mem: Memory, b: CqeBody, wr: Recv): Memory {
    if b.payload.None? then mem else Scatter(mem, wr.bufs, b.payload.value)
  }

  /** Polling one CQE: a receive of this queue returns the context that was posted with its slot, puts
      inline data into the posted buffers and frees the slot. */
  method PollReceive(cq: CompletionQueue, rq: ReceiveQueue, ghost owner: map<nat, nat>, ids: set<nat>, mem0: Memory)
    returns (r: Option<CqeBody>, done: Option<Received>, mem: Memory, ghost owner': map<nat, nat>)
    requires Joint(cq, rq, owner, ids)
    modifies cq`ci, cq`head, cq`queue, rq`ci, rq`completed, rq`pending, rq`inFlight, rq.bitmap
    ensures Joint(cq, rq, owner', ids)
    ensures r == if old(cq.queue) == [] then None else Some(old(cq.queue)[0])
    ensures cq.queue == if old(cq.queue) == [] then [] else old(cq.queue)[1..]
    ensures done.Some? <==> r.Some? && Mine(r.value, ids)
    ensures done.Some? ==>
      var e := r.value.entryIdx;
      && e in owner && owner[e] == r.value.localId && owner' == owner - {e}
      && e in old(rq.pending) && rq.pending == old(rq.pending) - {e} && rq.completed == old(rq.completed) + 1
      && done.value == Outcome(r.value, old(rq.pending)[e]) && mem == Delivered(mem0, r.value, old(rq.pending)[e])
    ensures done.None? ==> rq.pending == old(rq.pending) && rq.completed == old(rq.completed) && mem == mem0
  {
    hide CompletionQueue.Valid;
    hide ReceiveQueue.Valid;
    hide ReportsOf;
    hide Scatter;
    hide Capacity;
    if cq.queue != [] {
      AccountedPoll(cq.queue, cq.reportable.value, owner, ids);
      if Mine(cq.queue[0], ids) {
        FirstReported(cq.queue, ids);
        ghost var b := cq.queue[0];
        ReportedTook(Report(b.localId, b.entryIdx), ReportsOf(cq.queue), cq.reportable.value, owner, ids);
      }
    }
    hide Accounted;
    r := cq.PollOne();
    done, mem, owner' := None, mem0, owner;
    if r.Some? && Mine(r.value, ids) {
      var ctx, inlined;
      ctx, mem, inlined := rq.Complete(r.value.entryIdx, false, r.value.payload, mem0);
      done := Some(if inlined.None? then Received(ctx, r.value.byteCnt, r.value.status, r.value.substatus)
                   else if inlined.value.1 then Received(ctx, inlined.value.0, 2, 1)
                   else Received(ctx, inlined.value.0, r.value.status, r.value.substatus));
      owner' := owner - {r.value.entryIdx};
    }
  }

  /** Parsing: a receive of a known jetty, or a send with a queue, and a status of the table. */
  predicate Accepted(b: CqeBody, done: Option<Received>, live: set<nat>) {
    match done
    case Some(d) => StatusValid(d.status, d.substatus)
    case None => Parses(b, live)
  }

  /** How many of the CQEs are receives of the jetties. */
  function Count(out: seq<CqeBody>, ids: set<nat>): nat {
    if out == [] then 0 else Count(out[..|out| - 1], ids) + if Mine(out[|out| - 1], ids) then 1 else 0
  }

  /** `udma_u_poll_jfc` on the completion queue, while the device fetches and reports: CQEs come out in the
      order they were written, every receive of this queue among them is completed, and the doorbell gives
      the device its credit back. */
  method Poll(cq: CompletionQueue, rq: ReceiveQueue, ghost owner: map<nat, nat>, ids: set<nat>, live: set<nat>, max: nat,
      mem0: Memory)
    returns (n: nat, err: bool, mem: Memory, ghost out: seq<CqeBody>, ghost written: seq<CqeBody>,
             ghost owner': map<nat, nat>)
    requires Joint(cq, rq, owner, ids)
    modifies cq, cq.ring, rq`ci, rq`completed, rq`pending, rq`inFlight, rq`fetched, rq`queue, rq.bitmap
    ensures Joint(cq, rq, owner', ids) && n <= max && |out| == (if err then n + 1 else n)
    ensures InOrder(old(cq.queue), written, out, cq.queue)
    ensures rq.completed == old(rq.completed) + Count(out, ids)
    ensures !err && n < max ==> cq.queue == []
    ensures cq.credit == if n > 0 then cq.head else old(cq.credit)
  {
    hide Joint;
    n, err, mem, out, written, owner' := 0, false, mem0, [], [], owner;
    assert InOrder(cq.queue, [], [], cq.queue);
    hide InOrder;
    while n < max
      invariant Joint(cq, rq, owner', ids) && n <= max && !err && |out| == n && cq.credit == old(cq.credit)
      invariant InOrder(old(cq.queue), written, out, cq.queue)
      invariant rq.completed == old(rq.completed) + Count(out, ids)
      decreases max - n
    {
      var r, ok;
      r, ok, mem, out, written, owner' := PollTurn(cq, rq, owner', ids, live, mem, old(cq.queue), out, written);
      if r.None? {
        break;
      }
      if !ok {
        err := true;
        break;
      }
      n := n + 1;
    }
    if n > 0 {
      GiveCredit(cq, rq, owner', ids);
    }
  }

  method PollTurn(cq: CompletionQueue, rq: ReceiveQueue, ghost owner: map<nat, nat>, ids: set<nat>, live: set<nat>,
      mem0: Memory, ghost queue0: seq<CqeBody>, ghost out0: seq<CqeBody>, ghost written0: seq<CqeBody>)
    returns (r: Option<CqeBody>, ok: bool, mem: Memory, ghost out: seq<CqeBody>, ghost written: seq<CqeBody>,
             ghost owner': map<nat, nat>)
    requires Joint(cq, rq, owner, ids) && InOrder(queue0, written0, out0, cq.queue)
    modifies cq`ci, cq`head, cq`queue, cq`prod, cq`reportable, cq.ring
    modifies rq`ci, rq`completed, rq`pending, rq`inFlight, rq`fetched, rq`queue, rq.bitmap
    ensures Joint(cq, rq, owner', ids) && InOrder(queue0, written, out, cq.queue)
    ensures out == if r.None? then out0 else out0 + [r.value]
    ensures rq.completed - Count(out, ids) == old(rq.completed) - Count(out0, ids)
    ensures r.None? ==> cq.queue == []
  {
    hide Joint;
    owner' := DeviceFetches(cq, rq, owner, ids);
    ghost var q := cq.queue;
    ghost var more := DeviceReports(cq, rq, owner', ids);
    OrderWrite(queue0, written0, out0, q, more);
    hide InOrder;
    written := written0 + more;
    var done;
    r, done, mem, owner' := PollReceive(cq, rq, owner', ids, mem0);
    ok := r.Some? && Accepted(r.value, done, live);
    out := if r.None? then out0 else out0 + [r.value];
  }

  method GiveCredit(cq: CompletionQueue, rq: ReceiveQueue, ghost owner: map<nat, nat>, ghost ids: set<nat>)
    requires Joint(cq, rq, owner, ids)
    modifies cq`swDb, cq`credit
    ensures Joint(cq, rq, owner, ids) && cq.credit == cq.head
  {
    hide RingOk;
    hide ReceiveQueue.Valid;
    hide ReportsOf;
    hide Accounted;
    cq.UpdateDoorbell();
  }

  /** Cleaning after a deleted jetty.  When it is one of the jetties of this queue, the entries it reports
      are distinct slots that this jetty took, and exactly they are freed; the other jetties keep theirs.
      When `ci + cnt` fits 32 bits every receive of the jetty reported so far is among them. */
  method CleanAndRelease(cq: CompletionQueue, rq: ReceiveQueue, ghost owner: map<nat, nat>, ids: set<nat>, jetty: nat)
    returns (recvs: seq<nat>, ghost owner': map<nat, nat>)
    requires Joint(cq, rq, owner, ids) && SignedSafe(cq.ci, cq.cnt)
    modifies cq, cq.ring, rq`ci, rq`completed, rq`pending, rq`inFlight, rq.bitmap
    ensures Joint(cq, rq, owner', ids)
    ensures jetty in ids ==>
      && NoDup(recvs) && (forall e :: e in recvs ==> e in owner && owner[e] == jetty)
      && owner' == owner - Elems(recvs)
      && rq.pending == old(rq.pending) - Elems(recvs) && rq.completed == old(rq.completed) + |recvs|
    ensures jetty !in ids ==> owner' == owner && rq.pending == old(rq.pending) && rq.completed == old(rq.completed)
    ensures jetty in ids && old(cq.ci) + cq.cnt < M32 ==>
      forall e: nat :: Report(jetty, e) in ReportsOf(old(cq.queue)) ==> e in recvs
  {
    hide CompletionQueue.Valid;
    hide ReceiveQueue.Valid;
    hide ReportsOf;
    hide Accounted;
    hide Keep;
    hide DroppedReceives;
    hide Extends;
    hide NoDup;
    ghost var queue0, may0 := cq.queue, cq.reportable.value;
    ghost var q, later;
    recvs, q, later := cq.Clean(jetty);
    AccountedReport(queue0, may0, q + later, cq.reportable, owner, ids);
    AccountedClean(q, later, cq.reportable.value, owner, ids, jetty);
    owner' := owner;
    if jetty in ids {
      if queue0 <= q {
        ReleasedAll(queue0, q, later, cq.reportable.value, owner, ids, jetty);
      }
      rq.ReleaseAll(recvs);
      owner' := owner - Elems(recvs);
    }
  }

  lemma {:induction false} ReleasedAll(queue0: seq<CqeBody>, q: seq<CqeBody>, later: seq<CqeBody>,
      may: set<Report>, owner: map<nat, nat>, ids: set<nat>, jetty: nat)
    requires queue0 <= q && Accounted(ReportsOf(q + later), may, owner, ids)
    ensures forall e: nat :: Report(jetty, e) in ReportsOf(queue0) ==> e in DroppedReceives(q, jetty)
  {
    assert q == queue0 + q[|queue0|..];
    ReportsAppend(queue0, q[|queue0|..]);
    ReportsAppend(q, later);
    OnceAppend(ReportsOf(q), ReportsOf(later), ids);
    CleanReports(q, jetty, ids);
  }

  // -------------------------------------------------------------- whole runs

  datatype Step =
    | Posting(wrs: seq<Recv>)
    | Fetching
    | Reporting
    | Elsewhere(r: Report)
    | Polling(max: nat, live: set<nat>)
    | Cleaning(jetty: nat)

  /** Any sequence of steps keeps the accounts. */
  method Run(cq: CompletionQueue, rq: ReceiveQueue, ghost owner: map<nat, nat>, ids: set<nat>, steps: seq<Step>)
    returns (ghost owner': map<nat, nat>)
    requires Joint(cq, rq, owner, ids)
    modifies cq, cq.ring, rq, rq.bitmap, rq.ring, rq.wrid, rq.qbuf
    ensures Joint(cq, rq, owner', ids)
  {
    hide *;
    owner' := owner;
    var mem: Memory := map[];
    for i := 0 to |steps|
      invariant Joint(cq, rq, owner', ids)
    {
      match steps[i] {
        case Posting(wrs) =>
          var st, bad;
          st, bad, owner' := Post(cq, rq, owner', ids, wrs);
        case Fetching => owner' := DeviceFetches(cq, rq, owner', ids);
        case Reporting => ghost var _ := DeviceReports(cq, rq, owner', ids);
        case Elsewhere(r) =>
          if r.localId !in ids {
            TakenElsewhere(cq, rq, owner', ids, r);
          }
        case Polling(max, live) =>
          var n, err;
          ghost var out, written;
          n, err, mem, out, written, owner' := Poll(cq, rq, owner', ids, live, max, mem);
        case Cleaning(jetty) =>
          if SignedSafe(cq.ci, cq.cnt) {
            var recvs;
            recvs, owner' := CleanAndRelease(cq, rq, owner', ids, jetty);
          }
      }
    }
  }

  /** Every run of new queues ends with the accounts in order. */
  method RunFromNew(cqes: nat, slots: nat, maxSge: nat, wrids: nat, ids: set<nat>, steps: seq<Step>)
    returns (cq: CompletionQueue, rq: ReceiveQueue, ghost owner: map<nat, nat>)
    requires RingCount(cqes) && 0 < cqes < 0x40_0000 && ids != {}
    requires RingCount(slots) && 64 <= slots <= 0x1_0000 && maxSge > 0 && RingCount(wrids) && slots <= wrids
    ensures Joint(cq, rq, owner, ids)
  {
    hide *;
    cq, rq := Setup(cqes, slots, maxSge, wrids, ids);
    owner := Run(cq, rq, map[], ids, steps);
  }
}

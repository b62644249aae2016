/** Whole runs of a send queue: any sequence of list posts and completions, then a flush, against a
    plain queue of requests. */
module SendQueueRun {
  import opened Words
  import opened SqeLayout
  import opened SendRing
  import opened SendQueue

  /** A completion names the `nth` of the outstanding requests, by its last block. */
  datatype Op = Post(requests: seq<Wr>) | Completion(nth: nat)

  /** The outstanding requests, and the number of the first outstanding block. */
  datatype Plain = Plain(queue: seq<Wr>, head: nat)

  datatype Setup = Setup(limits: Limits, cnt: nat, rc: Option<Target>)

  // -------------------------------------------------------------- the plain queue

  function Used(queue: seq<Wr>): nat {
    if queue == [] then 0 else Blocks(queue[0]) + Used(queue[1..])
  }

  /** A connected jetty has its own target. */
  function Targeted(requests: seq<Wr>, rc: Option<Target>): seq<Wr> {
    seq(|requests|, i requires 0 <= i < |requests| =>
      if rc.Some? then requests[i].(target := rc.value) else requests[i])
  }

  ghost predicate AllWellFormed(requests: seq<Wr>) {
    forall i :: 0 <= i < |requests| ==> WellFormed(requests[i])
  }

  /** A list post takes requests until one is unacceptable or does not fit. */
  function Accept(queue: seq<Wr>, requests: seq<Wr>, l: Limits, cnt: nat): seq<Wr>
    requires AllWellFormed(requests)
    decreases |requests|
  {
    if requests == [] || Used(queue) > cnt || !Fits(requests[0], l, cnt - Used(queue)) then queue
    else Accept(queue + [requests[0]], requests[1..], l, cnt)
  }

  /** A completion removes its request and everything posted before it. */
  function Finish(p: Plain, nth: nat): Plain {
    if nth < |p.queue| then Plain(p.queue[nth + 1..], p.head + Used(p.queue[..nth + 1])) else p
  }

  ghost predicate OpOk(op: Op, s: Setup) {
    op.Post? ==> AllWellFormed(Targeted(op.requests, s.rc))
  }

  function Step(p: Plain, op: Op, s: Setup): Plain
    requires OpOk(op, s)
  {
    match op
    case Post(requests) => p.(queue := Accept(p.queue, Targeted(requests, s.rc), s.limits, s.cnt))
    case Completion(nth) => Finish(p, nth)
  }

  /** The queue after a run ... */
  function Run(p: Plain, ops: seq<Op>, s: Setup): Plain
    requires forall i :: 0 <= i < |ops| ==> OpOk(ops[i], s)
    decreases |ops|
  {
    if ops == [] then p else Run(Step(p, ops[0], s), ops[1..], s)
  }

  /** ... and the contexts that its completions report. */
  function Contexts(p: Plain, ops: seq<Op>, s: Setup): seq<u64>
    requires forall i :: 0 <= i < |ops| ==> OpOk(ops[i], s)
    decreases |ops|
  {
    if ops == [] then [] else Reported(p, ops[0]) + Contexts(Step(p, ops[0], s), ops[1..], s)
  }

  function Reported(p: Plain, op: Op): seq<u64> {
    if op.Completion? && op.nth < |p.queue| then [p.queue[op.nth].userCtx] else []
  }

  // -------------------------------------------------------------- the ring follows the plain queue

  lemma {:induction false} UsedAppend(a: seq<Wr>, b: seq<Wr>)
    ensures Used(a + b) == Used(a) + Used(b)
  {
    if a == [] {
      assert a + b == b;
    } else {
      assert (a + b)[1..] == a[1..] + b;
      UsedAppend(a[1..], b);
    }
  }

  /** The blocks of a log are the blocks of its requests. */
  lemma {:induction false} ChainUsed(log: seq<Entry>, l: Limits, from: nat, to: nat)
    requires Chain(log, l, from, to)
    ensures to == from + Used(Requests(log))
    ensures forall i :: 0 <= i < |log| ==> WellFormed(log[i].wr) && Acceptable(log[i].wr, l)
    decreases |log|
  {
    if log == [] {
    } else {
      ChainUsed(log[1..], l, End(log[0]), to);
      assert Requests(log)[1..] == Requests(log[1..]);
    }
  }

  /** Requests that fit together are all accepted, up to one that does not fit. */
  lemma {:induction false} AcceptPrefix(queue: seq<Wr>, requests: seq<Wr>, n: nat, l: Limits, cnt: nat)
    requires n <= |requests| && AllWellFormed(requests)
    requires Used(queue + requests[..n]) <= cnt && forall i :: 0 <= i < n ==> Acceptable(requests[i], l)
    requires n < |requests| ==> !Fits(requests[n], l, cnt - Used(queue + requests[..n]))
    ensures Accept(queue, requests, l, cnt) == queue + requests[..n]
    decreases n
  {
    hide Acceptable;
    hide Blocks;
    hide WellFormed;
    if n == 0 {
      assert queue + requests[..0] == queue;
    } else {
      var queue', rest := queue + [requests[0]], requests[1..];
      assert queue + requests[..n] == queue' + rest[..n - 1];
      UsedAppend(queue', rest[..n - 1]);
      UsedAppend(queue, [requests[0]]);
      AcceptPrefix(queue', rest, n - 1, l, cnt);
    }
  }

  lemma {:induction false} OwnerOfLast(log: seq<Entry>, l: Limits, head: nat, tail: nat, nth: nat)
    requires LogOk(log, l, head, tail) && nth < |log|
    ensures head <= End(log[nth]) - 1 < tail && OwnerIndex(log, l, head, tail, End(log[nth]) - 1) == nth
    decreases |log|
  {
    EntryWithin(log, l, head, tail, nth);
    if nth > 0 {
      LogTail(log, l, head, tail);
      OwnerOfLast(log[1..], l, End(log[0]), tail, nth - 1);
    }
  }

  /** Where the `nth` request ends, and that the one after it starts there. */
  lemma EndOf(log: seq<Entry>, l: Limits, head: nat, tail: nat, nth: nat)
    requires LogOk(log, l, head, tail) && nth < |log| && log[0].start == head
    ensures End(log[nth]) == head + Used(Requests(log)[..nth + 1])
    ensures Aligned(log[nth + 1..], End(log[nth]))
  {
    ChainAt(log, l, head, tail, nth);
    ChainAppend(log[..nth], l, head, log[nth].start, log[nth]);
    assert log[..nth] + [log[nth]] == log[..nth + 1];
    ChainUsed(log[..nth + 1], l, head, End(log[nth]));
    assert Requests(log[..nth + 1]) == Requests(log)[..nth + 1];
  }

  ghost predicate Follows(q: SendQueue, p: Plain)
    reads q, q.qbuf, q.wrid
  {
    q.Valid() && Aligned(q.log, q.head) && Requests(q.log) == p.queue && q.head == p.head
  }

  ghost function SetupOf(q: SendQueue): Setup { Setup(q.limits, q.cnt, q.rcTarget) }

  lemma LogUsed(q: SendQueue)
    requires q.Valid() && Aligned(q.log, q.head)
    ensures q.tail - q.head == Used(Requests(q.log)) <= q.cnt
    ensures forall i :: 0 <= i < |q.log| ==> WellFormed(q.log[i].wr) && Acceptable(q.log[i].wr, q.limits)
  {
    hide Acceptable;
    hide Stored;
    if q.log != [] {
      ChainUsed(q.log, q.limits, q.head, q.tail);
    }
  }

  lemma AcceptedAll(log: seq<Entry>, l: Limits, queue: seq<Wr>, requests: seq<Wr>, n: nat)
    requires n <= |requests| && Requests(log) == queue + requests[..n] && AllWellFormed(requests)
    requires forall i :: 0 <= i < |log| ==> WellFormed(log[i].wr) && Acceptable(log[i].wr, l)
    ensures forall i :: 0 <= i < n ==> Acceptable(requests[i], l)
  {
    hide Acceptable;
    forall i | 0 <= i < n
      ensures Acceptable(requests[i], l)
    {
      assert requests[i] == Requests(log)[|queue| + i] == log[|queue| + i].wr;
    }
  }

  method DoPost(q: SendQueue, requests: seq<Wr>, p: Plain) returns (p': Plain)
    requires Follows(q, p) && OpOk(Post(requests), SetupOf(q))
    modifies q, q.qbuf, q.wrid
    ensures Follows(q, p') && p' == Step(p, Post(requests), SetupOf(q)) && q.flushFlag == old(q.flushFlag)
  {
    hide Acceptable;
    hide WellFormed;
    hide Fits;
    hide Inv;
    var wrs := Targeted(requests, q.rcTarget);
    assert forall i :: 0 <= i < |requests| ==> wrs[i] == q.Resolve(requests[i]);
    var ok, bad := q.PostList(requests);
    assert q.Resolved(requests[..bad]) == wrs[..bad];
    LogUsed(q);
    hide SendQueue.Valid;
    AcceptedAll(q.log, q.limits, p.queue, wrs, bad);
    AcceptPrefix(p.queue, wrs, bad, q.limits, q.cnt);
    p' := p.(queue := Accept(p.queue, wrs, q.limits, q.cnt));
  }

  /** The device computes the block index from its own view of the queue. */
  method DoCompletion(q: SendQueue, nth: nat, p: Plain) returns (p': Plain, ctxs: seq<u64>)
    requires Follows(q, p)
    modifies q
    ensures Follows(q, p') && p' == Finish(p, nth) && ctxs == Reported(p, Completion(nth)) && q.flushFlag == old(q.flushFlag)
  {
    hide SendQueue.Valid;
    hide LogOk;
    if nth >= |p.queue| {
      return p, [];
    }
    var k := p.head + Used(p.queue[..nth + 1]) - 1;
    ghost var log := q.log;
    NthEnds(q, nth, k);
    var ctx := q.Complete(k % 0x1_0000, k);
    assert Requests(log[nth + 1..]) == p.queue[nth + 1..];
    p' := Plain(p.queue[nth + 1..], k + 1);
    ctxs := [ctx];
  }

  lemma NthEnds(q: SendQueue, nth: nat, k: int)
    requires q.Valid() && Aligned(q.log, q.head) && nth < |q.log|
    requires k == q.head + Used(Requests(q.log)[..nth + 1]) - 1
    ensures q.head <= k < q.tail && LogOk(q.log, q.limits, q.head, q.tail)
    ensures OwnerIndex(q.log, q.limits, q.head, q.tail, k) == nth && k + 1 == End(q.log[nth])
    ensures Aligned(q.log[nth + 1..], k + 1)
  {
    hide Stored;
    EndOf(q.log, q.limits, q.head, q.tail, nth);
    OwnerOfLast(q.log, q.limits, q.head, q.tail, nth);
  }

  const EMPTY: Plain := Plain([], 0)

  /** For every run from creation or reset, however long, each completion reports the context of the
      request it names, and the flush yields exactly one record per request that the run left outstanding,
      in posting order, with its context, length, peer and data. */
  method RunAndFlush(q: SendQueue, ops: seq<Op>, localId: u32, isJetty: bool) returns (ctxs: seq<u64>,
      rs: seq<FlushRecord>)
    requires q.Valid() && q.log == [] && q.head == 0 && forall i :: 0 <= i < |ops| ==> OpOk(ops[i], SetupOf(q))
    modifies q, q.qbuf, q.wrid
    ensures q.Valid() && q.log == [] && q.ci == q.pi
    ensures ctxs == Contexts(EMPTY, ops, SetupOf(q))
    ensures var left := Run(EMPTY, ops, SetupOf(q)).queue;
      && |rs| == |left| && AllWellFormed(left)
      && forall i :: 0 <= i < |rs| ==> rs[i] == FlushRecord(ExpectedCr(left[i]), left[i].userCtx, localId, isJetty)
  {
    hide Run;
    hide Contexts;
    hide OpOk;
    hide ExpectedCr;
    hide Inv;
    var p;
    p, ctxs := RunOps(q, ops);
    q.FlushDone();
    ghost var log := q.log;
    rs := q.Flush(localId, isJetty, |p.queue|);
    assert forall i :: 0 <= i < |log| ==> p.queue[i] == log[i].wr;
  }

  method RunOps(q: SendQueue, ops: seq<Op>) returns (p: Plain, ctxs: seq<u64>)
    requires q.Valid() && q.log == [] && q.head == 0 && forall i :: 0 <= i < |ops| ==> OpOk(ops[i], SetupOf(q))
    modifies q, q.qbuf, q.wrid
    ensures Follows(q, p) && p == Run(EMPTY, ops, SetupOf(q)) && ctxs == Contexts(EMPTY, ops, SetupOf(q))
  {
    hide SendQueue.Valid;
    hide Step;
    hide OpOk;
    p, ctxs := EMPTY, [];
    ghost var s := SetupOf(q);
    assert ops[0..] == ops;
    for i := 0 to |ops|
      invariant Follows(q, p)
      invariant Run(EMPTY, ops, s) == Run(p, ops[i..], s) && Contexts(EMPTY, ops, s) == ctxs + Contexts(p, ops[i..], s)
    {
      assert ops[i..][0] == ops[i] && ops[i..][1..] == ops[i + 1..];
      ghost var p0 := p;
      var more;
      p, more := DoOp(q, ops[i], p);
      ctxs := ctxs + more;
    }
  }

  method DoOp(q: SendQueue, op: Op, p: Plain) returns (p': Plain, ctxs: seq<u64>)
    requires Follows(q, p) && OpOk(op, SetupOf(q))
    modifies q, q.qbuf, q.wrid
    ensures Follows(q, p') && p' == Step(p, op, SetupOf(q)) && ctxs == Reported(p, op)
  {
    hide SendQueue.Valid;
    match op {
      case Post(requests) =>
        p' := DoPost(q, requests, p);
        ctxs := [];
      case Completion(nth) =>
        p', ctxs := DoCompletion(q, nth, p);
    }
  }
}

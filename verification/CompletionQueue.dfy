/** The completion queue of a JFC.  The device is a concurrent party: it may write any number of
    CQEs between any two steps of the host, as far as the doorbell it has seen leaves room. */
module CompletionQueue {
  import opened Words
  import opened CompletionRing

  /** The doorbell record carries the low 22 bits of the consumer index. */
  const DB_RANGE: nat := 0x40_0000

  /** The valid entries of the status table of `udma_u_get_cr_status`. */
  predicate StatusValid(status: nat, substatus: nat) {
    || (substatus == 0 && status in {0, 1, 4, 5, 6})
    || (status == 2 && 1 <= substatus <= 4)
    || (status == 3 && substatus in {1, 2, 4})
  }

  /** Parsing succeeds: a known receive queue, or a non-null send queue, and a valid status. */
  predicate Parses(body: CqeBody, live: set<nat>) {
    && (if body.isRecv then body.localId in live else body.userData != 0)
    && StatusValid(body.status, body.substatus)
  }

  /** A 32-bit word read as a C `int`. */
  function Int32(x: u32): int { if x < 0x8000_0000 then x else x - M32 }

  /** The `int` difference between position `ci + k` and `ci`. */
  function SignedDistance(ci: u32, k: int): int { Int32(Wrap32(ci + k)) - Int32(ci) }

  /** No `int` subtraction of the backward loop overflows. */
  predicate SignedSafe(ci: u32, cnt: nat) { ci + cnt <= 0x8000_0000 || ci > 0x8000_0000 }

  lemma SignedGuard(head: nat, cnt: nat, k: int)
    requires SignedSafe(Wrap32(head), cnt) && 0 < cnt < DB_RANGE && -1 <= k < cnt
    requires k == -1 || Wrap32(head) + cnt < M32
    ensures Int32(Wrap32(head + k)) - Int32(Wrap32(head)) == k
  {
  }

  /** The difference the backward loop tests, from `ci + cnt - 1` down to `ci - 1`, is the distance for all
      positions if and only if the start is safe. */
  lemma SignedSafeExact(ci: u32, cnt: nat)
    requires 0 < cnt < DB_RANGE && ci + cnt < M32
    ensures (forall k :: -1 <= k < cnt ==> SignedDistance(ci, k) == k) <==> SignedSafe(ci, cnt)
  {
    WrapSmall(ci);
    if SignedSafe(ci, cnt) {
      forall k | -1 <= k < cnt
        ensures SignedDistance(ci, k) == k
      {
        SignedGuard(ci, cnt, k);
      }
    } else {
      var k := if ci == 0x8000_0000 then -1 else cnt - 1;
      assert SignedDistance(ci, k) != k;
    }
  }

  /** The receive entries among the dropped CQEs, in the order the backward pass meets them. */
  function DroppedReceives(q: seq<CqeBody>, jetty: nat): seq<nat> {
    if q == [] then []
    else DroppedReceives(q[1..], jetty) + if q[0].localId == jetty && q[0].isRecv then [q[0].entryIdx] else []
  }

  // -------------------------------------------------------------- what the device may report

  /** Slot `entry` of the receive queue that completes under `localId`. */
  datatype Report = Report(localId: nat, entry: nat)

  /** The receives that CQEs report, oldest first. */
  function ReportsOf(q: seq<CqeBody>): seq<Report> {
    if q == [] then []
    else ReportsOf(q[..|q| - 1]) + ReportOf(q[|q| - 1])
  }

  function ReportOf(b: CqeBody): seq<Report> {
    if b.isRecv then [Report(b.localId, b.entryIdx)] else []
  }

  lemma {:induction false} ReportsAppend(a: seq<CqeBody>, b: seq<CqeBody>)
    ensures ReportsOf(a + b) == ReportsOf(a) + ReportsOf(b)
    decreases |b|
  {
    if b == [] {
      assert a + b == a;
    } else {
      assert (a + b)[..|a + b| - 1] == a + b[..|b| - 1];
      ReportsAppend(a, b[..|b| - 1]);
    }
  }

  /** The device reports a receive at most once, and only one it may report.  None: it promises nothing. */
  ghost predicate Honest(before: Option<set<Report>>, w: seq<CqeBody>, after: Option<set<Report>>) {
    if before.None? then after.None?
    else
      && NoDup(ReportsOf(w)) && (forall r :: r in ReportsOf(w) ==> r in before.value)
      && after.Some? && forall r :: r in after.value <==> r in before.value && r !in ReportsOf(w)
  }

  function Spent(may: Option<set<Report>>, b: CqeBody): Option<set<Report>> {
    if may.None? || !b.isRecv then may else Some(may.value - {Report(b.localId, b.entryIdx)})
  }

  predicate MayReport(may: Option<set<Report>>, b: CqeBody) {
    b.isRecv && may.Some? ==> Report(b.localId, b.entryIdx) in may.value
  }

  /** The device only ever appends, and keeps its promise. */
  ghost predicate Extends(a: seq<CqeBody>, before: Option<set<Report>>, b: seq<CqeBody>, after: Option<set<Report>>) {
    a <= b && Honest(before, b[|a|..], after)
  }

  lemma ExtendsNothing(a: seq<CqeBody>, may: Option<set<Report>>)
    ensures Extends(a, may, a, may)
  {
  }

  lemma HonestJoin(r0: Option<set<Report>>, v: seq<CqeBody>, r1: Option<set<Report>>, w: seq<CqeBody>,
      r2: Option<set<Report>>)
    requires Honest(r0, v, r1) && Honest(r1, w, r2)
    ensures Honest(r0, v + w, r2)
  {
    ReportsAppend(v, w);
    hide ReportsOf;
    if r0.Some? {
      assert forall i :: 0 <= i < |ReportsOf(w)| ==> ReportsOf(w)[i] in ReportsOf(w);
      NoDupAppend(ReportsOf(v), ReportsOf(w));
      hide NoDup;
    }
  }

  lemma ExtendsTransitive(a: seq<CqeBody>, r0: Option<set<Report>>, b: seq<CqeBody>, r1: Option<set<Report>>,
      c: seq<CqeBody>, r2: Option<set<Report>>)
    requires Extends(a, r0, b, r1) && Extends(b, r1, c, r2)
    ensures Extends(a, r0, c, r2)
  {
    assert c[|a|..] == b[|a|..] + c[|b|..];
    HonestJoin(r0, b[|a|..], r1, c[|b|..], r2);
  }

  lemma ExtendsWrite(a: seq<CqeBody>, r0: Option<set<Report>>, b: seq<CqeBody>, r1: Option<set<Report>>, body: CqeBody)
    requires Extends(a, r0, b, r1) && MayReport(r1, body)
    ensures Extends(a, r0, b + [body], Spent(r1, body))
  {
    assert ReportsOf([body]) == ReportOf(body) by {
      assert [body][..0] == [] && ReportsOf([]) == [];
    }
    hide ReportsOf;
    assert Honest(r1, [body], Spent(r1, body));
    assert (b + [body])[|a|..] == b[|a|..] + [body];
    HonestJoin(r0, b[|a|..], r1, [body], Spent(r1, body));
  }

  /** Two stretches of writes, the second into the part behind `q`. */
  lemma ExtendsBehind(a: seq<CqeBody>, r0: Option<set<Report>>, q: seq<CqeBody>, l: seq<CqeBody>, r1: Option<set<Report>>,
      l': seq<CqeBody>, r2: Option<set<Report>>)
    requires Extends(a, r0, q + l, r1) && Extends(l, r1, l', r2)
    ensures Extends(a, r0, q + l', r2)
  {
    assert q + l' == (q + l) + l'[|l|..];
    assert (q + l')[|q + l|..] == l'[|l|..];
    ExtendsTransitive(a, r0, q + l, r1, q + l', r2);
  }

  // -------------------------------------------------------------- what cleaning leaves

  ghost predicate NoneOf(q: seq<CqeBody>, jetty: nat) {
    forall i :: 0 <= i < |q| ==> q[i].localId != jetty
  }

  /** What is left of the unread CQEs, depending on whether `ci + cnt` fits 32 bits. */
  function Survivors(q: seq<CqeBody>, jetty: nat, fits: bool): seq<CqeBody> {
    if fits then Keep(q, jetty) else q
  }

  lemma {:induction false} KeepNone(q: seq<CqeBody>, jetty: nat)
    ensures NoneOf(Keep(q, jetty), jetty)
    decreases |q|
  {
    if q != [] {
      KeepNone(q[1..], jetty);
    }
  }

  lemma {:induction false} KeepAppend(a: seq<CqeBody>, b: seq<CqeBody>, jetty: nat)
    ensures Keep(a + b, jetty) == Keep(a, jetty) + Keep(b, jetty)
    decreases |a|
  {
    if a == [] {
      assert a + b == b;
    } else {
      assert (a + b)[1..] == a[1..] + b;
      KeepAppend(a[1..], b, jetty);
    }
  }

  lemma KeepPrefix(a: seq<CqeBody>, q: seq<CqeBody>, jetty: nat)
    requires a <= q
    ensures Keep(a, jetty) <= Keep(q, jetty)
  {
    assert q == a + q[|a|..];
    KeepAppend(a, q[|a|..], jetty);
  }

  lemma DroppedStep(q: seq<CqeBody>, i: nat, jetty: nat)
    requires i <= |q|
    ensures i == |q| ==> DroppedReceives(q[i..], jetty) == []
    ensures i < |q| ==>
              DroppedReceives(q[i..], jetty)
              == DroppedReceives(q[i + 1..], jetty) + if q[i].localId == jetty && q[i].isRecv then [q[i].entryIdx] else []
  {
  }

  /** What was unread plus what was written since is what came out plus what is unread now. */
  ghost predicate InOrder(queue0: seq<CqeBody>, written: seq<CqeBody>, out: seq<CqeBody>, queue: seq<CqeBody>) {
    queue0 + written == out + queue
  }

  lemma OrderWrite(queue0: seq<CqeBody>, written: seq<CqeBody>, out: seq<CqeBody>, q: seq<CqeBody>, more: seq<CqeBody>)
    requires InOrder(queue0, written, out, q)
    ensures InOrder(queue0, written + more, out, q + more)
    ensures q + more != [] ==> InOrder(queue0, written + more, out + [(q + more)[0]], (q + more)[1..])
  {
    assert queue0 + (written + more) == (queue0 + written) + more;
    assert out + (q + more) == (out + q) + more;
  }

  class CompletionQueue {
    const cnt: nat
    const ring: array<Cqe>
    var ci: u32
    var swDb: nat
    // The device: how many CQEs it has produced, and the consumer position it has seen.
    var prod: nat
    var credit: nat
    // The receives it may still report, if it promises anything.
    var reportable: Option<set<Report>>
    ghost var head: nat
    ghost var queue: seq<CqeBody>

    ghost predicate Shape() { RingCount(cnt) && 0 < cnt < DB_RANGE && ring.Length == cnt }

    ghost predicate Valid()
      reads this, ring
    {
      && Shape()
      && ci == Wrap32(head) && prod == head + |queue|
      && credit <= head && prod <= credit + cnt
      && RingOk(ring[..], cnt, head, queue)
    }

    /** A fresh ring is zeroed memory: every owner bit is 0, which reads as empty on the first lap. */
    constructor (cnt: nat)
      requires RingCount(cnt) && 0 < cnt < DB_RANGE
      ensures Valid() && fresh(ring) && this.cnt == cnt && queue == [] && head == 0 && reportable == None
    {
      this.cnt := cnt;
      ring := new Cqe[cnt](_ => Cqe(false, BLANK));
      ci, swDb, prod, credit, reportable := 0, 0, 0, 0, None;
      head, queue := 0, [];
      new;
      forall n: nat | 0 <= n < cnt
        ensures Fresh(n, cnt)
      {
        DivModUnique(n, 0, n, cnt);
      }
    }

    /** A ring that has been in use for any time, with any CQEs unread. */
    constructor InUse(cnt: nat, head: nat, queue: seq<CqeBody>)
      requires RingCount(cnt) && 0 < cnt < DB_RANGE && |queue| <= cnt
      ensures Valid() && fresh(ring) && this.cnt == cnt && this.queue == queue && this.head == head && reportable == None
    {
      this.cnt := cnt;
      ring := new Cqe[cnt](i requires 0 <= i < cnt => ContentAt(cnt, head, queue, i));
      ci, swDb, prod, credit, reportable := Wrap32(head), 0, head + |queue|, head, None;
      this.head, this.queue := head, queue;
      new;
      ContentOk(ring[..], cnt, head, queue);
    }

    // -------------------------------------------------------------- the device

    /** Any number of CQEs, each with the owner bit of its lap, never past the credit. */
    method Device() returns (ghost written: seq<CqeBody>)
      requires Valid()
      modifies this`prod, this`queue, this`reportable, ring
      ensures Valid() && queue == old(queue) + written && Extends(old(queue), old(reportable), queue, reportable)
    {
      hide Slot;
      hide Fresh;
      hide Wrap32;
      hide RingOk;
      ExtendsNothing(queue, reportable);
      hide Extends;
      hide Spent;
      hide MayReport;
      written := [];
      while prod < credit + cnt
        invariant Valid() && queue == old(queue) + written
        invariant Extends(old(queue), old(reportable), queue, reportable)
        invariant credit == old(credit)
        decreases credit + cnt - prod
      {
        var stop: bool := *;
        if stop {
          break;
        }
        var body: CqeBody := *;
        if !MayReport(reportable, body) {
          break;
        }
        ProduceOk(ring[..], cnt, head, queue, body);
        ExtendsWrite(old(queue), old(reportable), queue, reportable, body);
        reportable := Spent(reportable, body);
        ring[Slot(prod, cnt)] := Cqe(Fresh(prod, cnt), body);
        prod := prod + 1;
        queue, written := queue + [body], written + [body];
      }
    }

    // -------------------------------------------------------------- polling

    /** `udma_u_poll_one` up to parsing: a CQE exactly when one is unread, the oldest one. */
    method PollOne() returns (r: Option<CqeBody>)
      requires Valid()
      modifies this`ci, this`head, this`queue
      ensures Valid()
      ensures r == if old(queue) == [] then None else Some(old(queue)[0])
      ensures queue == if old(queue) == [] then [] else old(queue)[1..]
      ensures head == old(head) + |old(queue)| - |queue|
    {
      hide Slot;
      hide Wrap32;
      hide Add32;
      hide Readable;
      hide Fresh;
      NextExact(ring[..], cnt, head, queue, head);
      CounterSlot(head, cnt);
      var c := ring[Slot(ci, cnt)];
      if !Readable(c, ci, cnt) {
        return None;
      }
      ConsumeOk(ring[..], cnt, head, queue);
      WrapAdd(head, 1);
      ci := Add32(ci, 1);
      head, queue := head + 1, queue[1..];
      return Some(c.body);
    }

    /** `udma_u_poll_jfc`.  `written` is what the device wrote meanwhile: whatever the interleaving, CQEs
        come out in production order, none lost and none repeated; a CQE that does not parse is consumed
        and ends the batch with an error. */
    method Poll(max: nat, live: set<nat>) returns (rs: seq<CqeBody>, err: Option<CqeBody>, ghost written: seq<CqeBody>)
      requires Valid()
      modifies this, ring
      ensures Valid() && |rs| <= max
      ensures InOrder(old(queue), written, rs + (if err.Some? then [err.value] else []), queue)
      ensures forall i :: 0 <= i < |rs| ==> Parses(rs[i], live)
      ensures err.Some? ==> !Parses(err.value, live)
      ensures err.None? && |rs| < max ==> queue == []
      ensures credit == if rs != [] then head else old(credit)
    {
      hide Valid;
      hide Parses;
      rs, err, written := [], None, [];
      assert InOrder(queue, [], [], queue);
      hide InOrder;
      while |rs| < max
        invariant Valid() && |rs| <= max && err.None? && credit == old(credit)
        invariant InOrder(old(queue), written, rs, queue)
        invariant forall i :: 0 <= i < |rs| ==> Parses(rs[i], live)
        decreases max - |rs|
      {
        var r;
        r, written := PollTurn(old(queue), written, rs);
        if r.None? {
          break;
        }
        if !Parses(r.value, live) {
          err := r;
          break;
        }
        rs := rs + [r.value];
      }
      assert rs + [] == rs;
      if rs != [] {
        UpdateDoorbell();
      }
    }

    /** The device writes, then one CQE is polled. */
    method PollTurn(ghost queue0: seq<CqeBody>, ghost written0: seq<CqeBody>, ghost out: seq<CqeBody>)
      returns (r: Option<CqeBody>, ghost written: seq<CqeBody>)
      requires Valid() && InOrder(queue0, written0, out, queue)
      modifies this`prod, this`reportable, this`ci, this`head, this`queue, ring
      ensures Valid() && (r.None? ==> queue == [])
      ensures InOrder(queue0, written, if r.None? then out else out + [r.value], queue)
    {
      hide Valid;
      ghost var q0 := queue;
      ghost var more := Device();
      written := written0 + more;
      OrderWrite(queue0, written0, out, q0, more);
      r := PollOne();
    }

    /** The host writes the low 22 bits of its index; that is enough for the device to know it. */
    method UpdateDoorbell()
      requires Valid()
      modifies this`swDb, this`credit
      ensures Valid() && credit == head && swDb == ci % DB_RANGE
    {
      hide RingOk;
      DoorbellExact(prod, head);
      swDb := ci % DB_RANGE;
      credit := prod - (prod - swDb) % DB_RANGE;
    }

    // -------------------------------------------------------------- cleaning up after a deleted jetty

    ghost predicate InCleaning(q: seq<CqeBody>, later: seq<CqeBody>, jetty: nat, p: nat, freed: nat)
      reads this, ring
    {
      && Shape()
      && ci == Wrap32(head) && prod == head + |q| + |later|
      && credit <= head && prod <= credit + cnt
      && Cleaning(ring[..], cnt, head, q, later, jetty, p, freed)
    }

    /** The device while the backward pass runs. */
    method DeviceDuringClean(ghost q: seq<CqeBody>, ghost later: seq<CqeBody>, ghost jetty: nat, ghost p: nat,
        ghost freed: nat)
      returns (ghost later': seq<CqeBody>)
      requires InCleaning(q, later, jetty, p, freed)
      modifies this`prod, this`reportable, ring
      ensures InCleaning(q, later', jetty, p, freed) && Extends(later, old(reportable), later', reportable)
    {
      hide Slot;
      hide Fresh;
      hide Wrap32;
      hide Cleaning;
      ExtendsNothing(later, reportable);
      hide Extends;
      hide Spent;
      hide MayReport;
      later' := later;
      while prod < credit + cnt
        invariant InCleaning(q, later', jetty, p, freed) && Extends(later, old(reportable), later', reportable)
        invariant credit == old(credit)
        decreases credit + cnt - prod
      {
        var stop: bool := *;
        if stop {
          break;
        }
        var body: CqeBody := *;
        if !MayReport(reportable, body) {
          break;
        }
        ExtendsWrite(later, old(reportable), later', reportable, body);
        reportable := Spent(reportable, body);
        CleaningProduce(ring[..], cnt, head, q, later', jetty, p, freed, body);
        ring[Slot(prod, cnt)] := Cqe(Fresh(prod, cnt), body);
        prod := prod + 1;
        later' := later' + [body];
      }
    }

    /** The forward scan: past the last unread CQE, unless the 32-bit bound `ci + cnt` wraps, in which
        case it stops at once. */
    method ScanEnd() returns (pi: u32, ghost n: nat)
      requires Valid()
      modifies this`prod, this`queue, this`reportable, ring
      ensures Valid() && Extends(old(queue), old(reportable), queue, reportable)
      ensures pi == Wrap32(n) && n == if ci + cnt < M32 then prod else head
    {
      hide RingOk;
      hide Slot;
      hide Readable;
      ExtendsNothing(queue, reportable);
      hide Extends;
      n, pi := head, ci;
      ghost var end := credit + cnt;
      while true
        invariant Valid() && Extends(old(queue), old(reportable), queue, reportable) && credit + cnt == end
        invariant pi == Wrap32(n) && head <= n <= prod
        invariant ci + cnt >= M32 ==> n == head
        decreases end - n
      {
        ghost var q1, r1 := queue, reportable;
        ghost var more := Device();
        ExtendsTransitive(old(queue), old(reportable), q1, r1, queue, reportable);
        NextExact(ring[..], cnt, head, queue, n);
        CounterSlot(n, cnt);
        if !Readable(ring[Slot(pi, cnt)], pi, cnt) {
          break;
        }
        ScanBound(head, n, cnt);
        if pi > Add32(ci, cnt) {
          break;
        }
        WrapAdd(n, 1);
        pi := Add32(pi, 1);
        n := n + 1;
      }
    }

    /** One turn of the backward pass, on position p - 1. */
    method CleanStep(pi: u32, freed: nat, jetty: nat, ghost q: seq<CqeBody>, ghost later: seq<CqeBody>, ghost p: nat)
      returns (freed': nat, recv: Option<nat>)
      requires InCleaning(q, later, jetty, p, freed) && p > head && pi == Wrap32(p - 1)
      modifies ring
      ensures InCleaning(q, later, jetty, p - 1, freed')
      ensures var b := q[p - 1 - head];
              && freed' == freed + (if b.localId == jetty then 1 else 0)
              && recv == if b.localId == jetty && b.isRecv then Some(b.entryIdx) else None
    {
      hide Slot;
      hide Fresh;
      hide Wrap32;
      hide Add32;
      CounterSlot(p - 1, cnt);
      var c := ring[Slot(pi, cnt)];
      ghost var i := p - 1 - head;
      assert c == Cqe(Fresh(p - 1, cnt), q[..p - head][i]);
      if c.body.localId == jetty {
        CleaningDrop(ring[..], cnt, head, q, later, jetty, p, freed);
        return freed + 1, if c.body.isRecv then Some(c.body.entryIdx) else None;
      }
      CleaningMove(ring[..], cnt, head, q, later, jetty, p, freed);
      if freed > 0 {
        WrapAdd(p - 1, freed);
        CounterSlot(p - 1 + freed, cnt);
        var at := Slot(Add32(pi, freed), cnt);
        var owner := ring[at].owner;
        ring[at] := c.(owner := owner);
      }
      return freed, None;
    }

    /** `udma_u_clean_jfc`: removes the CQEs of a jetty in place.  `q` are the CQEs the scan found, `later`
        those it did not look at.  When `ci + cnt` does not wrap the scan finds everything unread, and what
        remains is a stable filter of it; when it wraps the scan finds nothing and nothing is removed.  So
        unless the device writes meanwhile, no CQE of the jetty is left if and only if `ci + cnt` fits 32
        bits or there was none. */
    method Clean(jetty: nat) returns (recvs: seq<nat>, ghost q: seq<CqeBody>, ghost later: seq<CqeBody>)
      requires Valid() && SignedSafe(ci, cnt)
      modifies this, ring
      ensures Valid() && Extends(old(queue), old(reportable), q + later, reportable)
      ensures if old(ci) + cnt < M32 then old(queue) <= q else q == [] && old(queue) <= later
      ensures queue == Keep(q, jetty) + later && head == old(head) + |q| - |Keep(q, jetty)|
      ensures recvs == DroppedReceives(q, jetty)
      ensures credit == if head == old(head) then old(credit) else head
      ensures Survivors(old(queue), jetty, old(ci) + cnt < M32) <= queue
      ensures q + later == old(queue) ==>
        (NoneOf(queue, jetty) <==> old(ci) + cnt < M32 || NoneOf(old(queue), jetty))
    {
      hide Cleaning;
      hide RingOk;
      hide Wrap32;
      hide Keep;
      hide DroppedReceives;
      var pi;
      ghost var p: nat;
      pi, p := ScanEnd();
      ghost var scanned, may := queue, reportable;
      if ci + cnt < M32 {
        q, later := queue, [];
        CleaningStart(ring[..], cnt, head, q, jetty);
      } else {
        q, later := [], queue;
        CleaningIdle(ring[..], cnt, head, queue, jetty);
      }
      ghost var later0 := later;
      assert scanned == q + later0;
      var freed;
      freed, recvs, later := BackwardPass(pi, jetty, q, later);
      CleaningEnd(ring[..], cnt, head, q, later, jetty, freed);
      FinishClean(freed, q, later, jetty);
      ExtendsBehind(old(queue), old(reportable), q, later0, may, later, reportable);
      SurvivorsStay(old(queue), q, later0, later, jetty);
      KeepNone(q, jetty);
      assert old(queue) == q + later ==> old(queue) == q || (q == [] && later == old(queue));
    }

    /** What the backward pass has established when it stands at position `p`. */
    ghost predicate PassAt(pi: u32, jetty: nat, q: seq<CqeBody>, later: seq<CqeBody>, p: nat, freed: nat,
        recvs: seq<nat>)
      reads this, ring
    {
      && InCleaning(q, later, jetty, p, freed)
      && SignedSafe(ci, cnt) && (q != [] ==> ci + cnt < M32)
      && pi == Wrap32(p - 1) && Int32(pi) - Int32(ci) == p - 1 - head
      && recvs == DroppedReceives(q[p - head..], jetty)
    }

    lemma PassGuard(p: nat, q: seq<CqeBody>)
      requires Shape() && ci == Wrap32(head) && head <= p <= head + |q| && |q| <= cnt
      requires SignedSafe(ci, cnt) && (q != [] ==> ci + cnt < M32)
      ensures Int32(Wrap32(p - 1)) - Int32(ci) == p - 1 - head
    {
      SignedGuard(head, cnt, p - 1 - head);
    }

    method CleanTurn(pi: u32, jetty: nat, freed: nat, recvs: seq<nat>, ghost q: seq<CqeBody>,
        ghost later: seq<CqeBody>, ghost p: nat)
      returns (pi': u32, freed': nat, recvs': seq<nat>, ghost later': seq<CqeBody>)
      requires PassAt(pi, jetty, q, later, p, freed, recvs) && p > head
      modifies this`prod, this`reportable, ring
      ensures PassAt(pi', jetty, q, later', p - 1, freed', recvs')
      ensures Extends(later, old(reportable), later', reportable)
    {
      hide Wrap32;
      hide Int32;
      hide SignedSafe;
      hide DroppedReceives;
      hide Keep;
      hide Holds;
      hide Stale;
      later' := DeviceDuringClean(q, later, jetty, p, freed);
      var recv;
      freed', recv := CleanStep(pi, freed, jetty, q, later', p);
      DroppedStep(q, p - 1 - head, jetty);
      recvs' := recvs + if recv.Some? then [recv.value] else [];
      pi' := StepBack(pi, p - 1);
      PassGuard(p - 1, q);
    }

    method BackwardPass(pi0: u32, jetty: nat, ghost q: seq<CqeBody>, ghost later0: seq<CqeBody>)
      returns (freed: nat, recvs: seq<nat>, ghost later: seq<CqeBody>)
      requires InCleaning(q, later0, jetty, head + |q|, 0) && pi0 == Wrap32(head + |q|)
      requires SignedSafe(ci, cnt) && (q != [] ==> ci + cnt < M32)
      modifies this`prod, this`reportable, ring
      ensures InCleaning(q, later, jetty, head, freed) && Extends(later0, old(reportable), later, reportable)
      ensures recvs == DroppedReceives(q, jetty)
    {
      hide Wrap32;
      hide Int32;
      hide SignedSafe;
      hide DroppedReceives;
      hide Keep;
      hide Holds;
      hide Stale;
      ExtendsNothing(later0, reportable);
      hide Extends;
      ghost var p: nat := head + |q|;
      freed, recvs, later := 0, [], later0;
      DroppedStep(q, |q|, jetty);
      var pi := StepBack(pi0, p);
      PassGuard(p, q);
      while Int32(pi) - Int32(ci) >= 0
        invariant PassAt(pi, jetty, q, later, p, freed, recvs)
        invariant Extends(later0, old(reportable), later, reportable)
        decreases p
      {
        ghost var later1, may1 := later, reportable;
        pi, freed, recvs, later := CleanTurn(pi, jetty, freed, recvs, q, later, p);
        ExtendsTransitive(later0, old(reportable), later1, may1, later, reportable);
        p := p - 1;
      }
      assert q[0..] == q;
    }

    method StepBack(pi: u32, ghost p: nat) returns (pi': u32)
      requires pi == Wrap32(p)
      ensures pi' == Wrap32(p - 1)
    {
      WrapAdd(p, -1);
      pi' := Sub32(pi, 1);
    }

    method FinishClean(freed: nat, ghost q: seq<CqeBody>, ghost later: seq<CqeBody>, ghost jetty: nat)
      requires Shape() && ci == Wrap32(head) && prod == head + |q| + |later|
      requires credit <= head && prod <= credit + cnt && freed == |q| - |Keep(q, jetty)|
      requires RingOk(ring[..], cnt, head + freed, Keep(q, jetty) + later)
      modifies this
      ensures Valid() && queue == Keep(q, jetty) + later && head == old(head) + freed
      ensures credit == (if freed == 0 then old(credit) else head) && reportable == old(reportable)
    {
      hide RingOk;
      hide Wrap32;
      hide Add32;
      WrapAdd(head, freed);
      queue := Keep(q, jetty) + later;
      head := head + freed;
      ci := Add32(ci, freed);
      if freed > 0 {
        UpdateDoorbell();
      }
    }
  }

  /** The test `pi > ci + cnt` of the scan: never true while `ci + cnt` fits 32 bits, true at the very
      first CQE when it wraps. */
  lemma ScanBound(head: nat, n: nat, cnt: nat)
    requires 0 < cnt < DB_RANGE && head <= n <= head + cnt
    ensures Wrap32(head) + cnt < M32 ==> Wrap32(n) <= Add32(Wrap32(head), cnt)
    ensures Wrap32(head) + cnt >= M32 ==> Wrap32(head) > Add32(Wrap32(head), cnt)
  {
  }

  lemma DoorbellExact(prod: nat, head: nat)
    requires head <= prod < head + DB_RANGE
    ensures prod - (prod - Wrap32(head) % DB_RANGE) % DB_RANGE == head
  {
  }

  /** The survivors of the unread CQEs come first in the cleaned queue. */
  lemma SurvivorsStay(queue0: seq<CqeBody>, q: seq<CqeBody>, later0: seq<CqeBody>, later: seq<CqeBody>, jetty: nat)
    requires queue0 <= q + later0 && later0 <= later && (q == [] || later0 == [])
    ensures queue0 <= q ==> Survivors(queue0, jetty, true) <= Keep(q, jetty) + later
    ensures q == [] ==> Survivors(queue0, jetty, false) <= Keep(q, jetty) + later
  {
    if queue0 <= q {
      KeepPrefix(queue0, q, jetty);
    }
  }

  const BLANK: CqeBody := CqeBody(false, false, false, 0, 0, 0, 0, 0, 0, 0, 0, 0, None)

  /** Slot `i` of a ring with `queue` unread from position `head` on: its position is in the coming lap. */
  function ContentAt(cnt: nat, head: nat, queue: seq<CqeBody>, i: nat): Cqe
    requires i < cnt
  {
    var d := (i - head) % cnt;
    if d < |queue| then Cqe(Fresh(head + d, cnt), queue[d]) else Cqe(!Fresh(head + d, cnt), BLANK)
  }

  lemma ContentOk(ring: seq<Cqe>, cnt: nat, head: nat, queue: seq<CqeBody>)
    requires 0 < cnt == |ring| && |queue| <= cnt
    requires forall i :: 0 <= i < cnt ==> ring[i] == ContentAt(cnt, head, queue, i)
    ensures RingOk(ring, cnt, head, queue)
  {
    hide ContentAt;
    hide Fresh;
    hide Slot;
    forall n: nat | head <= n < head + |queue|
      ensures ring[Slot(n, cnt)] == Cqe(Fresh(n, cnt), queue[n - head])
    {
      ContentPlace(cnt, head, queue, n);
    }
    forall n: nat | head + |queue| <= n < head + |queue| + cnt
      ensures ring[Slot(n, cnt)].owner != Fresh(n, cnt)
    {
      if n < head + cnt {
        ContentPlace(cnt, head, queue, n);
      } else {
        ContentPlace(cnt, head, queue, n - cnt);
        FreshFlips(n - cnt, cnt);
      }
    }
  }

  lemma ContentPlace(cnt: nat, head: nat, queue: seq<CqeBody>, n: nat)
    requires 0 < cnt && head <= n < head + cnt
    ensures ContentAt(cnt, head, queue, Slot(n, cnt))
         == if n < head + |queue| then Cqe(Fresh(n, cnt), queue[n - head]) else Cqe(!Fresh(n, cnt), BLANK)
  {
    hide Fresh;
    PlaceOf(n, head, cnt);
  }

  lemma PlaceOf(n: nat, head: nat, cnt: nat)
    requires 0 < cnt && head <= n < head + cnt
    ensures (Slot(n, cnt) - head) % cnt == n - head
  {
    assert cnt * (-(n / cnt)) == -(cnt * (n / cnt));
    DivModUnique(n % cnt - head, -(n / cnt), n - head, cnt);
  }

  /** A state in which cleaning removes nothing: one unread CQE of jetty 7 at position 2^32 - 1 of a ring of
      64. */
  method CleanMissesOnWrap() returns (c: CompletionQueue)
    ensures c.Valid() && c.head == M32 - 1 && c.queue != [] && c.queue[0].localId == 7
  {
    var b := BLANK.(localId := 7);
    Pow2Values();
    assert RingCount(64);
    c := new CompletionQueue.InUse(64, M32 - 1, [b]);
    WrapSmall(M32 - 1);
    ghost var q, later;
    var recvs;
    recvs, q, later := c.Clean(7);
    assert Survivors([b], 7, false) == [b];
  }
}

/** The shared-memory message ring: one producer, one consumer, no lock.

    Every shared access is one step: a byte copied, a size stored, an index published.  The other
    side may act between any two steps.  `posted` and `polled` record what was published by either
    side; nothing reads them. */
module MsgRing {
  import opened Words

  type Msg = seq<byte>

  /** One ring slot: the size word and the bytes after it. */
  datatype Cell = Cell(avail: u32, payload: seq<byte>)

  datatype Producer = Idle | Copying(msgs: seq<Msg>, done: nat, bytes: nat)

  datatype Consumer = Waiting | Reading(want: nat, cap: nat, got: seq<Msg>, part: Msg)

  datatype State = State(
    cells: seq<Cell>, pi: nat, ci: nat, producer: Producer, consumer: Consumer,
    posted: seq<Msg>, polled: seq<Msg>)

  datatype Step =
    | PostOne(msg: Msg)
    | PostBatch(msgs: seq<Msg>)
    | ProducerStep
    | Poll(max: nat, cap: nat)
    | ConsumerStep

  // -------------------------------------------------------------- what each side does

  /** `left_cnt` of a batch post: one slot always stays unused. */
  function Room(pi: nat, ci: nat, depth: nat): nat
    requires pi < depth && ci < depth
  {
    (ci + depth - pi - 1) % depth
  }

  /** `left_cnt` of a batch poll. */
  function Ready(pi: nat, ci: nat, depth: nat): nat
    requires pi < depth && ci < depth
  {
    (pi + depth - ci) % depth
  }

  ghost predicate Fit(msgs: seq<Msg>, size: nat) {
    forall i :: 0 <= i < |msgs| ==> |msgs[i]| <= size
  }

  /** All slots have `size` payload bytes; the indices are slot numbers. */
  ghost predicate Shape(s: State, size: nat) {
    && 0 < |s.cells| <= 0x8000_0000 && size < M32
    && s.pi < |s.cells| && s.ci < |s.cells|
    && forall i :: 0 <= i < |s.cells| ==> |s.cells[i].payload| == size
  }

  function WriteByte(cells: seq<Cell>, i: nat, k: nat, b: byte): (r: seq<Cell>)
    requires i < |cells| && k < |cells[i].payload|
  {
    cells[i := cells[i].(payload := cells[i].payload[k := b])]
  }

  function ProduceNext(s: State, size: nat): State
    requires Shape(s, size)
  {
    match s.producer
    case Idle => s
    case Copying(msgs, done, bytes) =>
      var i := Slot(s.pi + done, |s.cells|);
      if done < |msgs| && bytes < |msgs[done]| && bytes < size then
        s.(cells := WriteByte(s.cells, i, bytes, msgs[done][bytes]), producer := Copying(msgs, done, bytes + 1))
      else if done < |msgs| then
        s.(cells := s.cells[i := s.cells[i].(avail := Wrap32(|msgs[done]|))], producer := Copying(msgs, done + 1, 0))
      else
        s.(pi := Slot(s.pi + |msgs|, |s.cells|), producer := Idle, posted := s.posted + msgs)
  }

  function ConsumeNext(s: State, size: nat): State
    requires Shape(s, size)
  {
    match s.consumer
    case Waiting => s
    case Reading(want, cap, got, part) =>
      var cell := s.cells[Slot(s.ci + |got|, |s.cells|)];
      if |got| < want then
        if cap < cell.avail then s.(consumer := Waiting)
        else if |part| < cell.avail && |part| < size then
          s.(consumer := Reading(want, cap, got, part + [cell.payload[|part|]]))
        else s.(consumer := Reading(want, cap, got + [part], []))
      else
        s.(ci := Slot(s.ci + want, |s.cells|), consumer := Waiting, polled := s.polled + got)
  }

  /** The checks at the start of a call read the other side's index once. */
  function Next(s: State, size: nat, step: Step): State
    requires Shape(s, size)
  {
    match step
    case PostOne(msg) =>
      if s.producer.Idle? && |msg| <= size && Slot(s.pi + 1, |s.cells|) != s.ci
      then s.(producer := Copying([msg], 0, 0)) else s
    case PostBatch(msgs) =>
      if s.producer.Idle? && |msgs| <= Room(s.pi, s.ci, |s.cells|)
      then s.(producer := Copying(msgs, 0, 0)) else s
    case ProducerStep => ProduceNext(s, size)
    case Poll(max, cap) =>
      if s.consumer.Waiting? && s.pi != s.ci
      then s.(consumer := Reading(Min(Ready(s.pi, s.ci, |s.cells|), max), cap, [], [])) else s
    case ConsumerStep => ConsumeNext(s, size)
  }

  /** A batch post does not check sizes; its callers must. */
  ghost predicate Allowed(step: Step, size: nat) {
    step.PostBatch? ==> Fit(step.msgs, size)
  }

  // -------------------------------------------------------------- the invariant

  ghost predicate HoldsBytes(cell: Cell, msg: Msg, n: nat) {
    n <= |msg| <= |cell.payload| && forall j :: 0 <= j < n ==> cell.payload[j] == msg[j]
  }

  ghost predicate Holds(cell: Cell, msg: Msg) {
    cell.avail == |msg| && HoldsBytes(cell, msg, |msg|)
  }

  /** Slots `from`, `from + 1`, ... hold `msgs`. */
  ghost predicate HoldAll(cells: seq<Cell>, from: nat, msgs: seq<Msg>)
    requires cells != []
  {
    forall k :: 0 <= k < |msgs| ==> Holds(cells[Slot(from + k, |cells|)], msgs[k])
  }

  /** The indices are the counts modulo the depth, and the ring holds what is posted and not polled. */
  ghost predicate Queue(s: State)
    requires s.cells != []
  {
    && |s.polled| <= |s.posted| < |s.polled| + |s.cells|
    && s.polled == s.posted[..|s.polled|]
    && s.pi == Slot(|s.posted|, |s.cells|) && s.ci == Slot(|s.polled|, |s.cells|)
    && HoldAll(s.cells, |s.polled|, s.posted[|s.polled|..])
  }

  /** A producer at work has room for its whole batch and has copied what it says. */
  ghost predicate ProducerOk(s: State, size: nat)
    requires s.cells != []
  {
    match s.producer
    case Idle => true
    case Copying(msgs, done, bytes) =>
      && Fit(msgs, size) && done <= |msgs| && |s.posted| + |msgs| < |s.polled| + |s.cells|
      && HoldAll(s.cells, |s.posted|, msgs[..done])
      && (done < |msgs| ==> HoldsBytes(s.cells[Slot(|s.posted| + done, |s.cells|)], msgs[done], bytes))
  }

  /** A consumer at work has read the oldest messages, and part of the next one. */
  ghost predicate ConsumerOk(s: State) {
    match s.consumer
    case Waiting => true
    case Reading(want, cap, got, part) =>
      && |got| <= want && |s.polled| + want <= |s.posted|
      && got == s.posted[|s.polled|..|s.polled| + |got|]
      && (|got| == want ==> part == [])
      && (|got| < want ==> part <= s.posted[|s.polled| + |got|])
  }

  ghost predicate Inv(s: State, size: nat) {
    Shape(s, size) && Queue(s) && ProducerOk(s, size) && ConsumerOk(s)
  }

  ghost predicate Init(s: State, size: nat) {
    && Shape(s, size) && s.pi == 0 && s.ci == 0 && s.posted == [] && s.polled == []
    && s.producer == Idle && s.consumer == Waiting
  }

  // -------------------------------------------------------------- index arithmetic

  lemma SlotAdd(p: nat, d: nat, depth: nat)
    requires depth > 0
    ensures Slot(Slot(p, depth) + d, depth) == Slot(p + d, depth)
  {
    var q, r := p / depth, p % depth;
    var q', r' := (r + d) / depth, (r + d) % depth;
    assert depth * (q + q') == depth * q + depth * q';
    DivModUnique(p + d, q + q', r', depth);
  }

  /** The free count computed from the two stored indices is the true one. */
  lemma RoomExact(p: nat, c: nat, depth: nat)
    requires c <= p < c + depth
    ensures Room(Slot(p, depth), Slot(c, depth), depth) == c + depth - 1 - p
  {
    var qp, qc := p / depth, c / depth;
    assert depth * (qp - qc) == depth * qp - depth * qc;
    DivModUnique(c % depth + depth - p % depth - 1, qp - qc, c + depth - 1 - p, depth);
  }

  lemma ReadyExact(p: nat, c: nat, depth: nat)
    requires c <= p < c + depth
    ensures Ready(Slot(p, depth), Slot(c, depth), depth) == p - c
    ensures Slot(p, depth) == Slot(c, depth) <==> p == c
  {
    var qp, qc := p / depth, c / depth;
    assert depth * (qp - qc + 1) == depth * qp - depth * qc + depth;
    DivModUnique(p % depth + depth - c % depth, qc - qp + 1, p - c, depth);
    if p != c {
      SlotsDistinct(c, p, depth);
    }
  }

  /** The full test of a single post says that a batch of one has no room. */
  lemma FullExact(p: nat, c: nat, depth: nat)
    requires c <= p < c + depth
    ensures Slot(Slot(p, depth) + 1, depth) == Slot(c, depth)
        <==> Room(Slot(p, depth), Slot(c, depth), depth) == 0
  {
    RoomExact(p, c, depth);
    SlotAdd(p, 1, depth);
    if p + 1 < c + depth {
      SlotsDistinct(c, p + 1, depth);
    } else {
      SlotLap(c, depth);
    }
  }

  lemma SlotLap(c: nat, depth: nat)
    requires depth > 0
    ensures Slot(c + depth, depth) == Slot(c, depth)
  {
    DivModUnique(c + depth, c / depth + 1, c % depth, depth);
  }

  // -------------------------------------------------------------- steps keep the invariant

  /** A write to slot number `n`, past the messages and less than a lap ahead, disturbs none of them. */
  lemma WriteAhead(cells: seq<Cell>, cells': seq<Cell>, n: nat, from: nat, msgs: seq<Msg>)
    requires |cells| == |cells'| > 0 && from + |msgs| <= n < from + |cells|
    requires forall i :: 0 <= i < |cells| && i != Slot(n, |cells|) ==> cells'[i] == cells[i]
    requires HoldAll(cells, from, msgs)
    ensures HoldAll(cells', from, msgs)
  {
    hide Slot;
    hide Holds;
    forall k | 0 <= k < |msgs|
      ensures Holds(cells'[Slot(from + k, |cells'|)], msgs[k])
    {
      SlotsDistinct(from + k, n, |cells|);
    }
  }

  lemma HoldAllAppend(cells: seq<Cell>, from: nat, a: seq<Msg>, b: seq<Msg>)
    requires cells != [] && HoldAll(cells, from, a) && HoldAll(cells, from + |a|, b)
    ensures HoldAll(cells, from, a + b)
  {
  }

  lemma HoldAllDrop(cells: seq<Cell>, from: nat, msgs: seq<Msg>, n: nat)
    requires cells != [] && HoldAll(cells, from, msgs) && n <= |msgs|
    ensures HoldAll(cells, from + n, msgs[n..])
  {
  }

  /** The producer's slot number, unreduced. */
  ghost function Target(s: State): nat
    requires s.producer.Copying?
  {
    |s.posted| + s.producer.done
  }

  /** No step of the producer touches a slot that is posted and not yet consumed. */
  lemma NoOverwrite(s: State, size: nat, k: nat)
    requires Inv(s, size) && s.producer.Copying? && s.producer.done < |s.producer.msgs|
    requires |s.polled| <= k < |s.posted|
    ensures Slot(s.pi + s.producer.done, |s.cells|) != Slot(k, |s.cells|)
  {
    SlotAdd(|s.posted|, s.producer.done, |s.cells|);
    SlotsDistinct(k, Target(s), |s.cells|);
  }

  lemma KeepProduceByte(s: State, size: nat)
    requires Inv(s, size) && s.producer.Copying? && s.producer.done < |s.producer.msgs|
    requires s.producer.bytes < |s.producer.msgs[s.producer.done]|
    ensures Inv(ProduceNext(s, size), size)
  {
    hide Slot;
    hide Holds;
    var Copying(msgs, done, bytes) := s.producer;
    SlotAdd(|s.posted|, done, |s.cells|);
    var s' := ProduceNext(s, size);
    WriteAhead(s.cells, s'.cells, Target(s), |s.polled|, s.posted[|s.polled|..]);
    WriteAhead(s.cells, s'.cells, Target(s), |s.posted|, msgs[..done]);
  }

  lemma KeepProduceSize(s: State, size: nat)
    requires Inv(s, size) && s.producer.Copying? && s.producer.done < |s.producer.msgs|
    requires s.producer.bytes == |s.producer.msgs[s.producer.done]|
    ensures Inv(ProduceNext(s, size), size)
  {
    hide Slot;
    var Copying(msgs, done, bytes) := s.producer;
    SlotAdd(|s.posted|, done, |s.cells|);
    var s' := ProduceNext(s, size);
    WriteAhead(s.cells, s'.cells, Target(s), |s.polled|, s.posted[|s.polled|..]);
    WriteAhead(s.cells, s'.cells, Target(s), |s.posted|, msgs[..done]);
    WrapSmall(|msgs[done]|);
    assert Holds(s'.cells[Slot(Target(s), |s.cells|)], msgs[done]);
    HoldAllAppend(s'.cells, |s.posted|, msgs[..done], [msgs[done]]);
    assert msgs[..done] + [msgs[done]] == msgs[..done + 1];
  }

  lemma KeepPublish(s: State, size: nat)
    requires Inv(s, size) && s.producer.Copying? && s.producer.done == |s.producer.msgs|
    ensures Inv(ProduceNext(s, size), size)
  {
    hide Slot;
    hide Holds;
    var Copying(msgs, done, bytes) := s.producer;
    SlotAdd(|s.posted|, |msgs|, |s.cells|);
    assert msgs[..done] == msgs;
    HoldAllAppend(s.cells, |s.polled|, s.posted[|s.polled|..], msgs);
    var s' := ProduceNext(s, size);
    assert s'.posted[|s.polled|..] == s.posted[|s.polled|..] + msgs;
    assert s'.posted[..|s.polled|] == s.posted[..|s.polled|];
  }

  /** The slot the consumer reads holds the next message. */
  lemma NextToRead(s: State, size: nat)
    requires Inv(s, size) && s.consumer.Reading? && |s.consumer.got| < s.consumer.want
    ensures Holds(s.cells[Slot(s.ci + |s.consumer.got|, |s.cells|)], s.posted[|s.polled| + |s.consumer.got|])
  {
    hide Holds;
    var n := |s.consumer.got|;
    SlotAdd(|s.polled|, n, |s.cells|);
    hide Slot;
    assert Holds(s.cells[Slot(|s.polled| + n, |s.cells|)], s.posted[|s.polled|..][n]);
  }

  lemma KeepRead(s: State, size: nat)
    requires Inv(s, size) && s.consumer.Reading? && |s.consumer.got| < s.consumer.want
    ensures Inv(ConsumeNext(s, size), size)
  {
    hide Slot;
    NextToRead(s, size);
    hide HoldAll;
    hide ProducerOk;
    var n, c, part := |s.consumer.got|, |s.polled|, s.consumer.part;
    var cell, msg := s.cells[Slot(s.ci + n, |s.cells|)], s.posted[c + n];
    if |part| < |msg| {
      assert part + [cell.payload[|part|]] == msg[..|part| + 1];
    } else {
      assert part == msg;
    }
    assert s.posted[c..c + n] + [s.posted[c + n]] == s.posted[c..c + n + 1];
    assert ProducerOk(ConsumeNext(s, size), size) == ProducerOk(s, size) by { SameProducer(s, ConsumeNext(s, size), size); }
  }

  lemma SameProducer(s: State, t: State, size: nat)
    requires s.cells != [] && s.cells == t.cells && s.producer == t.producer && s.posted == t.posted && s.polled == t.polled
    ensures ProducerOk(s, size) == ProducerOk(t, size)
  {
  }

  lemma KeepConsumed(s: State, size: nat)
    requires Inv(s, size) && s.consumer.Reading? && |s.consumer.got| == s.consumer.want
    ensures Inv(ConsumeNext(s, size), size)
  {
    var want, c := s.consumer.want, |s.polled|;
    SlotAdd(c, want, |s.cells|);
    hide Slot;
    HoldAllDrop(s.cells, c, s.posted[c..], want);
    hide HoldAll;
    assert s.posted[c..][want..] == s.posted[c + want..];
    assert s.posted[..c] + s.posted[c..c + want] == s.posted[..c + want];
  }

  lemma KeepStart(s: State, size: nat, step: Step)
    requires Inv(s, size) && Allowed(step, size) && !step.ProducerStep? && !step.ConsumerStep?
    ensures Inv(Next(s, size, step), size)
  {
    RoomExact(|s.posted|, |s.polled|, |s.cells|);
    ReadyExact(|s.posted|, |s.polled|, |s.cells|);
    FullExact(|s.posted|, |s.polled|, |s.cells|);
    hide Slot;
    hide Room;
    hide Ready;
  }

  lemma InvNext(s: State, size: nat, step: Step)
    requires Inv(s, size) && Allowed(step, size)
    ensures Inv(Next(s, size, step), size)
  {
    if step.ProducerStep? {
      if s.producer.Copying? {
        if s.producer.done == |s.producer.msgs| {
          KeepPublish(s, size);
        } else if s.producer.bytes < |s.producer.msgs[s.producer.done]| {
          KeepProduceByte(s, size);
        } else {
          KeepProduceSize(s, size);
        }
      }
    } else if step.ConsumerStep? {
      if s.consumer.Reading? {
        if |s.consumer.got| < s.consumer.want {
          KeepRead(s, size);
        } else {
          KeepConsumed(s, size);
        }
      }
    } else {
      KeepStart(s, size, step);
    }
  }

  // -------------------------------------------------------------- runs

  function Run(s: State, size: nat, steps: seq<Step>): (r: State)
    requires Shape(s, size)
    ensures Shape(r, size)
    decreases |steps|
  {
    if steps == [] then s
    else
      ShapeNext(s, size, steps[0]);
      Run(Next(s, size, steps[0]), size, steps[1..])
  }

  lemma ShapeNext(s: State, size: nat, step: Step)
    requires Shape(s, size)
    ensures Shape(Next(s, size, step), size)
  {
  }

  lemma {:induction false} InvRun(s: State, size: nat, steps: seq<Step>)
    requires Inv(s, size) && forall i :: 0 <= i < |steps| ==> Allowed(steps[i], size)
    ensures Inv(Run(s, size, steps), size)
    decreases |steps|
  {
    hide Queue;
    hide ProducerOk;
    hide ConsumerOk;
    hide Next;
    if steps == [] {
    } else {
      InvNext(s, size, steps[0]);
      InvRun(Next(s, size, steps[0]), size, steps[1..]);
    }
  }

  /** For every interleaving, the polled messages are a prefix, byte for byte, of the posted ones, and at
      most `depth - 1` are in between. */
  lemma PolledIsPrefix(s: State, size: nat, steps: seq<Step>)
    requires Init(s, size) && forall i :: 0 <= i < |steps| ==> Allowed(steps[i], size)
    ensures var r := Run(s, size, steps); r.polled <= r.posted && |r.posted| - |r.polled| < |s.cells|
  {
    InvRun(s, size, steps);
    SameDepth(s, size, steps);
  }

  lemma {:induction false} SameDepth(s: State, size: nat, steps: seq<Step>)
    requires Shape(s, size)
    ensures |Run(s, size, steps).cells| == |s.cells|
    decreases |steps|
  {
    if steps == [] {
    } else {
      ShapeNext(s, size, steps[0]);
      SameDepth(Next(s, size, steps[0]), size, steps[1..]);
    }
  }

  // -------------------------------------------------------------- a batch is its singles, published at once

  function Put(cell: Cell, msg: Msg): Cell
    requires |msg| <= |cell.payload|
  {
    Cell(Wrap32(|msg|), msg + cell.payload[|msg|..])
  }

  function PutAll(cells: seq<Cell>, from: nat, msgs: seq<Msg>, size: nat): (r: seq<Cell>)
    requires cells != [] && Fit(msgs, size) && forall i :: 0 <= i < |cells| ==> |cells[i].payload| == size
    ensures |r| == |cells| && forall i :: 0 <= i < |r| ==> |r[i].payload| == size
    decreases |msgs|
  {
    if msgs == [] then cells
    else
      var i := Slot(from, |cells|);
      PutAll(cells[i := Put(cells[i], msgs[0])], from + 1, msgs[1..], size)
  }

  lemma PutSame(cells: seq<Cell>, from: nat, msgs: seq<Msg>, size: nat, k: nat, b: byte)
    requires cells != [] && Fit(msgs, size) && forall i :: 0 <= i < |cells| ==> |cells[i].payload| == size
    requires msgs != [] && k < |msgs[0]|
    ensures PutAll(WriteByte(cells, Slot(from, |cells|), k, b), from, msgs, size) == PutAll(cells, from, msgs, size)
  {
    var i := Slot(from, |cells|);
    hide Slot;
    var cells' := WriteByte(cells, i, k, b);
    assert cells'[i].payload[|msgs[0]|..] == cells[i].payload[|msgs[0]|..];
    assert Put(cells'[i], msgs[0]) == Put(cells[i], msgs[0]);
    assert cells'[i := Put(cells'[i], msgs[0])] == cells[i := Put(cells[i], msgs[0])];
  }

  lemma PutDone(cell: Cell, msg: Msg)
    requires HoldsBytes(cell, msg, |msg|)
    ensures cell.(avail := Wrap32(|msg|)) == Put(cell, msg)
  {
  }

  /** The state in which the producer's call ends if the consumer does nothing meanwhile. */
  ghost function Posted(s: State, size: nat): State
    requires Inv(s, size) && s.producer.Copying?
  {
    var Copying(msgs, done, bytes) := s.producer;
    s.(cells := PutAll(s.cells, Target(s), msgs[done..], size), pi := Slot(s.pi + |msgs|, |s.cells|),
       producer := Idle, posted := s.posted + msgs)
  }

  function Times(step: Step, n: nat): seq<Step> { seq(n, _ => step) }

  /** `s'` is where the call leads when the other side does nothing meanwhile. */
  ghost predicate CallEnds(s: State, size: nat, call: Step, own: Step, s': State)
    requires Shape(s, size)
  {
    exists n :: s' == Run(s, size, [call] + Times(own, n))
  }

  lemma OnceMore(s: State, size: nat, step: Step, n: nat)
    requires Shape(s, size)
    ensures Shape(Next(s, size, step), size)
    ensures Run(s, size, Times(step, n + 1)) == Run(Next(s, size, step), size, Times(step, n))
  {
    ShapeNext(s, size, step);
    assert Times(step, n + 1)[1..] == Times(step, n);
  }

  lemma PostedStep(s: State, size: nat)
    requires Inv(s, size) && s.producer.Copying? && s.producer.done < |s.producer.msgs|
    ensures var s' := ProduceNext(s, size);
      Inv(s', size) && s'.producer.Copying? && Posted(s', size) == Posted(s, size)
  {
    InvNext(s, size, ProducerStep);
    hide Queue;
    hide ConsumerOk;
    hide Slot;
    if s.producer.bytes < |s.producer.msgs[s.producer.done]| {
      PostedByte(s, size);
    } else {
      PostedSize(s, size);
    }
  }

  lemma PostedByte(s: State, size: nat)
    requires Inv(s, size) && s.producer.Copying? && s.producer.done < |s.producer.msgs|
    requires s.producer.bytes < |s.producer.msgs[s.producer.done]| && Inv(ProduceNext(s, size), size)
    ensures Posted(ProduceNext(s, size), size) == Posted(s, size)
  {
    var Copying(msgs, done, bytes) := s.producer;
    SlotAdd(|s.posted|, done, |s.cells|);
    hide Slot;
    hide HoldAll;
    PutSame(s.cells, Target(s), msgs[done..], size, bytes, msgs[done][bytes]);
  }

  lemma PostedSize(s: State, size: nat)
    requires Inv(s, size) && s.producer.Copying? && s.producer.done < |s.producer.msgs|
    requires s.producer.bytes == |s.producer.msgs[s.producer.done]| && Inv(ProduceNext(s, size), size)
    ensures Posted(ProduceNext(s, size), size) == Posted(s, size)
  {
    var Copying(msgs, done, bytes) := s.producer;
    SlotAdd(|s.posted|, done, |s.cells|);
    hide Slot;
    hide HoldAll;
    PutDone(s.cells[Slot(Target(s), |s.cells|)], msgs[done]);
    assert msgs[done..][1..] == msgs[done + 1..];
  }

  lemma {:induction false} ProducerAlone(s: State, size: nat) returns (n: nat)
    requires Inv(s, size) && s.producer.Copying?
    ensures Run(s, size, Times(ProducerStep, n)) == Posted(s, size)
    decreases |s.producer.msgs| - s.producer.done,
      if s.producer.done < |s.producer.msgs| then |s.producer.msgs[s.producer.done]| - s.producer.bytes else 0
  {
    var s' := ProduceNext(s, size);
    if s.producer.done == |s.producer.msgs| {
      n := 1;
      OnceMore(s, size, ProducerStep, 0);
    } else {
      PostedStep(s, size);
      hide Posted;
      var m := ProducerAlone(s', size);
      n := m + 1;
      OnceMore(s, size, ProducerStep, m);
    }
  }

  lemma {:induction false} RunAppend(s: State, size: nat, a: seq<Step>, b: seq<Step>)
    requires Shape(s, size)
    ensures Run(s, size, a + b) == Run(Run(s, size, a), size, b)
    decreases |a|
  {
    if a == [] {
      assert a + b == b;
    } else {
      ShapeNext(s, size, a[0]);
      assert (a + b)[1..] == a[1..] + b;
      RunAppend(Next(s, size, a[0]), size, a[1..], b);
    }
  }

  /** `msgs` are in the ring and published. */
  ghost function AfterPost(s: State, size: nat, msgs: seq<Msg>): State
    requires Shape(s, size) && Fit(msgs, size)
  {
    s.(cells := PutAll(s.cells, |s.posted|, msgs, size), pi := Slot(s.pi + |msgs|, |s.cells|), posted := s.posted + msgs)
  }

  ghost predicate CanPost(s: State, size: nat, msgs: seq<Msg>) {
    && Inv(s, size) && s.producer.Idle? && Fit(msgs, size)
    && |msgs| <= Room(s.pi, s.ci, |s.cells|)
  }

  lemma CallStarts(s: State, size: nat, msgs: seq<Msg>, call: Step)
    requires CanPost(s, size, msgs)
    requires call == PostBatch(msgs) || (|msgs| == 1 && call == PostOne(msgs[0]))
    ensures Next(s, size, call) == s.(producer := Copying(msgs, 0, 0)) && Allowed(call, size)
  {
    FullExact(|s.posted|, |s.polled|, |s.cells|);
    assert |msgs| == 1 ==> [msgs[0]] == msgs;
    hide Room;
    hide Slot;
    hide HoldAll;
  }

  lemma PostedStart(s: State, size: nat, msgs: seq<Msg>)
    requires Shape(s, size) && Fit(msgs, size) && Inv(s.(producer := Copying(msgs, 0, 0)), size)
    ensures Posted(s.(producer := Copying(msgs, 0, 0)), size)
         == AfterPost(s, size, msgs).(producer := Idle)
  {
  }

  lemma CallAlone(s: State, size: nat, msgs: seq<Msg>, call: Step) returns (run: seq<Step>)
    requires CanPost(s, size, msgs)
    requires call == PostBatch(msgs) || (|msgs| == 1 && call == PostOne(msgs[0]))
    ensures exists n :: run == [call] + Times(ProducerStep, n)
    ensures Run(s, size, run) == AfterPost(s, size, msgs)
  {
    hide Queue;
    hide ConsumerOk;
    hide ProducerOk;
    hide Room;
    CallStarts(s, size, msgs, call);
    InvNext(s, size, call);
    hide Next;
    PostedStart(s, size, msgs);
    assert AfterPost(s, size, msgs).(producer := Idle) == AfterPost(s, size, msgs);
    hide Posted;
    hide AfterPost;
    var n := ProducerAlone(Next(s, size, call), size);
    run := [call] + Times(ProducerStep, n);
    assert run[1..] == Times(ProducerStep, n);
  }

  /** The single posts in a run, in order. */
  function Asked(steps: seq<Step>): seq<Msg> {
    if steps == [] then [] else (if steps[0].PostOne? then [steps[0].msg] else []) + Asked(steps[1..])
  }

  lemma {:induction false} AskedAppend(n: nat, b: seq<Step>)
    ensures Asked(Times(ProducerStep, n) + b) == Asked(b)
    ensures forall x :: x in Times(ProducerStep, n) + b ==> x == ProducerStep || x in b
  {
    if n == 0 {
      assert Times(ProducerStep, 0) + b == b;
    } else {
      assert (Times(ProducerStep, n) + b)[1..] == Times(ProducerStep, n - 1) + b;
      AskedAppend(n - 1, b);
    }
  }

  lemma AfterPostSplit(s: State, size: nat, msgs: seq<Msg>)
    requires CanPost(s, size, msgs) && msgs != []
    ensures var t := AfterPost(s, size, msgs[..1]);
            && Inv(t, size) ==> CanPost(t, size, msgs[1..]) && AfterPost(t, size, msgs[1..]) == AfterPost(s, size, msgs)
  {
    RoomExact(|s.posted|, |s.polled|, |s.cells|);
    var t := AfterPost(s, size, msgs[..1]);
    assert t.posted + msgs[1..] == s.posted + msgs;
    SlotAdd(|s.posted|, |msgs|, |s.cells|);
    SlotAdd(|s.posted|, 1, |s.cells|);
    SlotAdd(|s.posted| + 1, |msgs| - 1, |s.cells|);
    assert t.cells == PutAll(s.cells, |s.posted|, msgs[..1], size);
    assert msgs[..1][1..] == [];
    if Inv(t, size) {
      RoomExact(|t.posted|, |t.polled|, |t.cells|);
    }
  }

  lemma {:induction false} SinglesAlone(s: State, size: nat, msgs: seq<Msg>) returns (run: seq<Step>)
    requires CanPost(s, size, msgs)
    ensures Asked(run) == msgs && forall x :: x in run ==> x.PostOne? || x.ProducerStep?
    ensures Run(s, size, run) == AfterPost(s, size, msgs)
    decreases |msgs|
  {
    if msgs == [] {
      run := [];
      SlotAdd(|s.posted|, 0, |s.cells|);
      assert s.posted + [] == s.posted;
    } else {
      RoomExact(|s.posted|, |s.polled|, |s.cells|);
      var first := CallAlone(s, size, msgs[..1], PostOne(msgs[0]));
      var n :| first == [PostOne(msgs[0])] + Times(ProducerStep, n);
      InvRun(s, size, first);
      AfterPostSplit(s, size, msgs);
      var rest := SinglesAlone(Run(s, size, first), size, msgs[1..]);
      RunAppend(s, size, first, rest);
      AskedAppend(n, rest);
      run := first + rest;
      assert run == [PostOne(msgs[0])] + (Times(ProducerStep, n) + rest);
    }
  }

  /** A batch post leaves the ring exactly as the same messages posted one by one. */
  lemma BatchIsSingles(s: State, size: nat, msgs: seq<Msg>) returns (batch: seq<Step>, singles: seq<Step>)
    requires CanPost(s, size, msgs)
    ensures exists n :: batch == [PostBatch(msgs)] + Times(ProducerStep, n)
    ensures Asked(singles) == msgs && forall x :: x in singles ==> x.PostOne? || x.ProducerStep?
    ensures Run(s, size, batch) == Run(s, size, singles) && Run(s, size, batch).posted == s.posted + msgs
  {
    batch := CallAlone(s, size, msgs, PostBatch(msgs));
    singles := SinglesAlone(s, size, msgs);
  }

  // -------------------------------------------------------------- what is posted can be polled

  ghost function Unread(s: State): seq<Msg>
    requires |s.polled| <= |s.posted|
  {
    s.posted[|s.polled|..]
  }

  /** The oldest `n` unread messages are consumed. */
  ghost function Consumed(s: State, n: nat): State
    requires s.cells != [] && |s.polled| + n <= |s.posted|
  {
    s.(ci := Slot(s.ci + n, |s.cells|), polled := s.posted[..|s.polled| + n], consumer := Waiting)
  }

  /** A poll into too small a buffer ends without consuming anything, also after earlier messages of the
      batch were read. */
  lemma FailedPoll(s: State, size: nat)
    requires Inv(s, size) && s.consumer.Reading? && |s.consumer.got| < s.consumer.want
    requires s.consumer.cap < |s.posted[|s.polled| + |s.consumer.got|]|
    ensures ConsumeNext(s, size) == s.(consumer := Waiting)
  {
    NextToRead(s, size);
  }

  /** Reading goes on, with less left to read. */
  lemma ReadGoesOn(s: State, size: nat)
    requires Inv(s, size) && s.consumer.Reading? && |s.consumer.got| < s.consumer.want
    requires |s.posted[|s.polled| + |s.consumer.got|]| <= s.consumer.cap
    ensures var s', n := ConsumeNext(s, size), |s.consumer.got|;
      && s' == s.(consumer := s'.consumer) && s'.consumer.Reading?
      && s'.consumer.want == s.consumer.want && s'.consumer.cap == s.consumer.cap
      && (|s'.consumer.got| == n + 1 ||
          (|s'.consumer.got| == n && |s.consumer.part| < |s'.consumer.part| <= |s.posted[|s.polled| + n]|))
  {
    hide Slot;
    NextToRead(s, size);
    hide HoldAll;
    hide ProducerOk;
  }

  lemma ReadEnds(s: State, size: nat)
    requires Inv(s, size) && s.consumer.Reading? && |s.consumer.got| == s.consumer.want
    ensures ConsumeNext(s, size) == Consumed(s, s.consumer.want)
  {
    hide ProducerOk;
    hide HoldAll;
    hide Slot;
    var c, want := |s.polled|, s.consumer.want;
    assert s.posted[..c] + s.posted[c..c + want] == s.posted[..c + want];
  }

  /** The messages that a consumer at work still wants. */
  ghost function Wanted(s: State): seq<Msg>
    requires ConsumerOk(s) && s.consumer.Reading?
  {
    s.posted[|s.polled| + |s.consumer.got|..|s.polled| + s.consumer.want]
  }

  /** The state in which the consumer's call ends if the producer does nothing meanwhile. */
  ghost function Ended(s: State): State
    requires s.cells != [] && ConsumerOk(s) && s.consumer.Reading?
  {
    if Fit(Wanted(s), s.consumer.cap) then Consumed(s, s.consumer.want) else s.(consumer := Waiting)
  }

  lemma FitFirst(m: Msg, msgs: seq<Msg>, cap: nat)
    requires |m| <= cap
    ensures Fit([m] + msgs, cap) <==> Fit(msgs, cap)
  {
    if Fit([m] + msgs, cap) {
      assert forall i :: 0 <= i < |msgs| ==> msgs[i] == ([m] + msgs)[i + 1];
    }
  }

  lemma EndedStep(s: State, size: nat)
    requires Inv(s, size) && s.consumer.Reading? && |s.consumer.got| < s.consumer.want
    requires |s.posted[|s.polled| + |s.consumer.got|]| <= s.consumer.cap
    ensures var s' := ConsumeNext(s, size);
      Inv(s', size) && s'.consumer.Reading? && Ended(s') == Ended(s)
  {
    hide ConsumeNext;
    hide Slot;
    hide ProducerOk;
    hide Queue;
    InvNext(s, size, ConsumerStep);
    ReadGoesOn(s, size);
    var s' := ConsumeNext(s, size);
    if |s'.consumer.got| == |s.consumer.got| + 1 {
      assert Wanted(s) == [Wanted(s)[0]] + Wanted(s');
      FitFirst(Wanted(s)[0], Wanted(s'), s.consumer.cap);
    } else {
      assert Wanted(s) == Wanted(s');
    }
  }

  lemma {:induction false} ConsumerAlone(s: State, size: nat) returns (n: nat)
    requires Inv(s, size) && s.consumer.Reading?
    ensures Run(s, size, Times(ConsumerStep, n)) == Ended(s)
    decreases s.consumer.want - |s.consumer.got|,
      if |s.consumer.got| < s.consumer.want then |s.posted[|s.polled| + |s.consumer.got|]| - |s.consumer.part| else 0
  {
    hide ProducerOk;
    hide Queue;
    hide ConsumeNext;
    var s' := ConsumeNext(s, size);
    if |s.consumer.got| == s.consumer.want {
      n := 1;
      OnceMore(s, size, ConsumerStep, 0);
      ReadEnds(s, size);
    } else if s.consumer.cap < |s.posted[|s.polled| + |s.consumer.got|]| {
      n := 1;
      OnceMore(s, size, ConsumerStep, 0);
      FailedPoll(s, size);
      assert |Wanted(s)[0]| > s.consumer.cap;
    } else {
      EndedStep(s, size);
      ReadGoesOn(s, size);
      hide ConsumerOk;
      hide Ended;
      var m := ConsumerAlone(s', size);
      n := m + 1;
      OnceMore(s, size, ConsumerStep, m);
    }
  }

  /** What a poll call comes to: all of the oldest messages, up to the maximum, or nothing. */
  ghost function PollEnd(s: State, max: nat, cap: nat): State
    requires s.cells != [] && |s.polled| <= |s.posted|
  {
    var n := Min(|Unread(s)|, max);
    if Fit(Unread(s)[..n], cap) then Consumed(s, n) else s
  }

  lemma PollAlone(s: State, size: nat, max: nat, cap: nat) returns (n: nat)
    requires Inv(s, size) && s.consumer == Waiting
    ensures Run(s, size, [Poll(max, cap)] + Times(ConsumerStep, n)) == PollEnd(s, max, cap)
    ensures Inv(PollEnd(s, max, cap), size) && PollEnd(s, max, cap).consumer == Waiting
  {
    hide ProducerOk;
    hide HoldAll;
    InvNext(s, size, Poll(max, cap));
    ReadyExact(|s.posted|, |s.polled|, |s.cells|);
    var s' := Next(s, size, Poll(max, cap));
    if s.pi == s.ci {
      n := 0;
      NothingConsumed(s, size);
      assert [Poll(max, cap)] + Times(ConsumerStep, 0) == [Poll(max, cap)];
    } else {
      hide Slot;
      n := ConsumerAlone(s', size);
      assert s'.consumer == Reading(Min(|Unread(s)|, max), cap, [], []);
      assert Wanted(s') == Unread(s)[..Min(|Unread(s)|, max)];
      assert ([Poll(max, cap)] + Times(ConsumerStep, n))[1..] == Times(ConsumerStep, n);
    }
    InvRun(s, size, [Poll(max, cap)] + Times(ConsumerStep, n));
  }

  lemma NothingConsumed(s: State, size: nat)
    requires Inv(s, size) && s.consumer == Waiting
    ensures Consumed(s, 0) == s
  {
    SlotAdd(|s.polled|, 0, |s.cells|);
  }

  /** A poll with a large enough buffer delivers everything posted so far, up to its maximum. */
  lemma PollDelivers(s: State, size: nat, max: nat, cap: nat) returns (n: nat)
    requires Inv(s, size) && s.consumer == Waiting && cap >= size
    ensures Run(s, size, [Poll(max, cap)] + Times(ConsumerStep, n)) == Consumed(s, Min(|Unread(s)|, max))
  {
    n := PollAlone(s, size, max, cap);
    forall i | 0 <= i < |Unread(s)|
      ensures |Unread(s)[i]| <= size
    {
      assert Holds(s.cells[Slot(|s.polled| + i, |s.cells|)], Unread(s)[i]);
    }
  }

  // -------------------------------------------------------------- a batch poll and its singles

  /** `n` polls for one message each. */
  ghost function PollEach(s: State, cap: nat, n: nat): State
    requires s.cells != [] && |s.polled| <= |s.posted|
    decreases n
  {
    if n == 0 then s else PollEach(PollEnd(s, 1, cap), cap, n - 1)
  }

  /** The number of messages before the first that is longer than the buffer. */
  function Leading(msgs: seq<Msg>, cap: nat): (j: nat)
    ensures j <= |msgs| && (j == |msgs| <==> Fit(msgs, cap))
    ensures j == 0 <==> msgs == [] || |msgs[0]| > cap
  {
    if msgs == [] || |msgs[0]| > cap then 0
    else
      assert msgs == [msgs[0]] + msgs[1..];
      1 + Leading(msgs[1..], cap)
  }

  /** Single polls deliver the messages before the first that does not fit. */
  lemma {:induction false} PollEachIs(s: State, size: nat, cap: nat, n: nat)
    requires Inv(s, size) && s.consumer == Waiting && n <= |Unread(s)|
    ensures PollEach(s, cap, n) == Consumed(s, Leading(Unread(s)[..n], cap))
    decreases n
  {
    hide HoldAll;
    hide ProducerOk;
    hide ConsumerOk;
    hide Slot;
    hide PollEnd;
    hide Consumed;
    NothingConsumed(s, size);
    if n == 0 {
    } else {
      var asked := Unread(s)[..n];
      PollFirst(s, cap);
      if |asked[0]| > cap {
        PollStuck(s, cap, n);
      } else {
        var _ := PollAlone(s, size, 1, cap);
        ConsumedTwice(s, Leading(asked[1..], cap));
        var t := Consumed(s, 1);
        assert asked[1..] == Unread(t)[..n - 1];
        PollEachIs(t, size, cap, n - 1);
      }
    }
  }

  lemma PollFirst(s: State, cap: nat)
    requires s.cells != [] && |s.polled| < |s.posted|
    ensures PollEnd(s, 1, cap) == if |Unread(s)[0]| <= cap then Consumed(s, 1) else s
  {
    assert Unread(s)[..1] == [Unread(s)[0]] && Unread(s)[..1][0] == Unread(s)[0];
  }

  lemma ConsumedTwice(s: State, j: nat)
    requires s.cells != [] && |s.polled| + 1 + j <= |s.posted|
    ensures var t := Consumed(s, 1); |t.polled| <= |t.posted| && Unread(t) == Unread(s)[1..]
    ensures Consumed(Consumed(s, 1), j) == Consumed(s, 1 + j)
  {
    hide Slot;
    SlotAdd(s.ci + 1, j, |s.cells|);
  }

  lemma {:induction false} PollStuck(s: State, cap: nat, n: nat)
    requires s.cells != [] && |s.polled| < |s.posted| && |Unread(s)[0]| > cap
    ensures PollEach(s, cap, n) == s
    decreases n
  {
    if n == 0 {
    } else {
      PollFirst(s, cap);
      PollStuck(s, cap, n - 1);
    }
  }

  /** The polls in a run. */
  function Polls(steps: seq<Step>): nat {
    if steps == [] then 0 else (if steps[0].Poll? then 1 else 0) + Polls(steps[1..])
  }

  lemma {:induction false} PollsAppend(k: nat, b: seq<Step>)
    ensures Polls(Times(ConsumerStep, k) + b) == Polls(b)
    ensures forall x :: x in Times(ConsumerStep, k) + b ==> x == ConsumerStep || x in b
  {
    if k == 0 {
      assert Times(ConsumerStep, 0) + b == b;
    } else {
      assert (Times(ConsumerStep, k) + b)[1..] == Times(ConsumerStep, k - 1) + b;
      PollsAppend(k - 1, b);
    }
  }

  lemma {:induction false} PollsAlone(s: State, size: nat, cap: nat, n: nat) returns (run: seq<Step>)
    requires Inv(s, size) && s.consumer == Waiting
    ensures Polls(run) == n && forall x :: x in run ==> x == Poll(1, cap) || x == ConsumerStep
    ensures Run(s, size, run) == PollEach(s, cap, n) && PollEach(s, cap, n).consumer == Waiting
    decreases n
  {
    if n == 0 {
      run := [];
    } else {
      var k := PollAlone(s, size, 1, cap);
      var first := [Poll(1, cap)] + Times(ConsumerStep, k);
      hide Inv;
      var rest := PollsAlone(PollEnd(s, 1, cap), size, cap, n - 1);
      hide PollEnd;
      RunAppend(s, size, first, rest);
      PollsAppend(k, rest);
      run := first + rest;
      assert run == [Poll(1, cap)] + (Times(ConsumerStep, k) + rest);
    }
  }

  /** A batch poll ends as that many single polls do if and only if every message it asks for fits the
      buffer, or the oldest does not.  Otherwise the batch consumes nothing and the singles deliver the
      messages before the first that is too long. */
  lemma BatchPollIsSingles(s: State, size: nat, max: nat, cap: nat) returns (batch: seq<Step>, singles: seq<Step>)
    requires Inv(s, size) && s.consumer == Waiting
    ensures exists k :: batch == [Poll(max, cap)] + Times(ConsumerStep, k)
    ensures Polls(singles) == Min(|Unread(s)|, max)
    ensures forall x :: x in singles ==> x == Poll(1, cap) || x == ConsumerStep
    ensures Run(s, size, batch).consumer == Waiting && Run(s, size, singles).consumer == Waiting
    ensures var asked := Unread(s)[..Min(|Unread(s)|, max)];
      && Run(s, size, batch) == (if Fit(asked, cap) then Consumed(s, |asked|) else s)
      && Run(s, size, singles) == Consumed(s, Leading(asked, cap))
      && (Run(s, size, batch) == Run(s, size, singles)
          <==> Fit(asked, cap) || (asked != [] && |asked[0]| > cap))
  {
    var n := Min(|Unread(s)|, max);
    var k := PollAlone(s, size, max, cap);
    batch := [Poll(max, cap)] + Times(ConsumerStep, k);
    singles := PollsAlone(s, size, cap, n);
    PollEachIs(s, size, cap, n);
    NothingConsumed(s, size);
    hide Inv;
    hide Run;
  }

  /** Two messages, the second longer than the buffer: the batch delivers nothing, single polls the first. */
  lemma BatchPollDiffers()
    ensures var s := State([Cell(1, [7, 0]), Cell(2, [8, 9]), Cell(0, [0, 0])], 2, 0, Idle, Waiting, [[7], [8, 9]], []);
      Inv(s, 2) && PollEnd(s, 2, 1).polled == [] && PollEach(s, 1, 2).polled == [[7]]
  {
    var s := State([Cell(1, [7, 0]), Cell(2, [8, 9]), Cell(0, [0, 0])], 2, 0, Idle, Waiting, [[7], [8, 9]], []);
    assert s.posted[0..] == s.posted;
    assert Holds(s.cells[Slot(0 + 0, 3)], s.posted[0]) && Holds(s.cells[Slot(0 + 1, 3)], s.posted[1]);
    assert Inv(s, 2);
    hide Inv;
    assert |Unread(s)[..2][1]| == 2;
    PollEachIs(s, 2, 1, 2);
    assert Unread(s)[..2] == [[7], [8, 9]];
    assert Leading([[8, 9]], 1) == 0 && [[7], [8, 9]][1..] == [[8, 9]];
  }
}

/** The calls of the message ring as its two sides make them, each run to its end: every call leads where
    its steps lead in the interleaving model when the other side does nothing meanwhile. */
module MsgChannel {
  import opened Words
  import opened MsgRing

  datatype PostResult = Accepted | TooBig | Full

  class MsgChannel {
    const cells: array<Cell>
    const size: nat
    var pi: nat
    var ci: nat
    ghost var posted: seq<Msg>
    ghost var polled: seq<Msg>

    /** The state between calls. */
    ghost function Now(): State
      reads this, cells
    {
      State(cells[..], pi, ci, Idle, Waiting, posted, polled)
    }

    ghost predicate Valid()
      reads this, cells
    {
      Inv(Now(), size)
    }

    /** The messages posted and not yet polled. */
    ghost function Backlog(): seq<Msg>
      requires Valid()
      reads this, cells
    {
      Unread(Now())
    }

    constructor (depth: nat, size: nat)
      requires 0 < depth <= 0x8000_0000 && size < M32
      ensures Valid() && fresh(cells) && Init(Now(), size) && cells.Length == depth && this.size == size
    {
      this.size := size;
      cells := new Cell[depth](_ => Cell(0, seq(size, _ => 0)));
      pi, ci, posted, polled := 0, 0, [], [];
      new;
      DivModUnique(0, 0, 0, depth);
    }

    lemma Counts()
      requires Valid()
      ensures pi < cells.Length && ci < cells.Length && |Backlog()| < cells.Length
      ensures Room(pi, ci, cells.Length) == cells.Length - 1 - |Backlog()|
      ensures Ready(pi, ci, cells.Length) == |Backlog()| && (pi == ci <==> Backlog() == [])
      ensures Slot(pi + 1, cells.Length) == ci <==> |Backlog()| == cells.Length - 1
    {
      RoomExact(|posted|, |polled|, cells.Length);
      ReadyExact(|posted|, |polled|, cells.Length);
      FullExact(|posted|, |polled|, cells.Length);
    }

    // -------------------------------------------------------------- posting

    /** Copies messages into the slots from the producer index on. */
    method CopyIn(msgs: seq<Msg>)
      requires 0 < cells.Length && size < M32 && pi == Slot(|posted|, cells.Length) && Fit(msgs, size)
      requires forall j :: 0 <= j < cells.Length ==> |cells[j].payload| == size
      modifies cells
      ensures forall j :: 0 <= j < cells.Length ==> |cells[j].payload| == size
      ensures cells[..] == PutAll(old(cells[..]), |posted|, msgs, size)
    {
      hide Slot;
      assert msgs[0..] == msgs;
      for i := 0 to |msgs|
        modifies cells
        invariant forall j :: 0 <= j < cells.Length ==> |cells[j].payload| == size
        invariant PutAll(cells[..], |posted| + i, msgs[i..], size) == PutAll(old(cells[..]), |posted|, msgs, size)
      {
        ghost var before := cells[..];
        SlotAdd(|posted|, i, cells.Length);
        var at := Slot(pi + i, cells.Length);
        WrapSmall(|msgs[i]|);
        cells[at] := Put(cells[at], msgs[i]);
        assert cells[..] == before[at := Put(before[at], msgs[i])] && msgs[i..][1..] == msgs[i + 1..];
      }
    }

    /** Copies the messages and publishes them. */
    method Publish(msgs: seq<Msg>, ghost call: Step)
      requires Valid() && Fit(msgs, size) && |Backlog()| + |msgs| < cells.Length
      requires call == PostBatch(msgs) || (|msgs| == 1 && call == PostOne(msgs[0]))
      modifies cells, this`pi, this`posted
      ensures Valid() && Backlog() == old(Backlog()) + msgs
      ensures CallEnds(old(Now()), size, call, ProducerStep, Now())
    {
      ghost var s := Now();
      Counts();
      ghost var run := CallAlone(s, size, msgs, call);
      AfterAll(s, size, call, run);
      hide HoldAll;
      hide Room;
      hide Ready;
      hide Run;
      CopyIn(msgs);
      hide PutAll;
      hide Slot;
      pi := Slot(pi + |msgs|, cells.Length);
      posted := posted + msgs;
      assert Now() == AfterPost(s, size, msgs);
    }

    method PostTx(msg: Msg) returns (r: PostResult)
      requires Valid()
      modifies cells, this`pi, this`posted
      ensures Valid()
      ensures r == TooBig <==> |msg| > size
      ensures r == Full <==> |msg| <= size && |old(Backlog())| == cells.Length - 1
      ensures Backlog() == if r == Accepted then old(Backlog()) + [msg] else old(Backlog())
      ensures CallEnds(old(Now()), size, PostOne(msg), ProducerStep, Now())
    {
      Counts();
      hide Inv;
      Refused(Now(), size, PostOne(msg), ProducerStep);
      if |msg| > size {
        return TooBig;
      }
      if Slot(pi + 1, cells.Length) == ci {
        return Full;
      }
      hide Slot;
      Publish([msg], PostOne(msg));
      return Accepted;
    }

    /** All or nothing.  The callers keep each message within the slot size. */
    method PostTxBatch(msgs: seq<Msg>) returns (ok: bool)
      requires Valid() && Fit(msgs, size)
      modifies cells, this`pi, this`posted
      ensures Valid() && (ok <==> |old(Backlog())| + |msgs| < cells.Length)
      ensures Backlog() == if ok then old(Backlog()) + msgs else old(Backlog())
      ensures CallEnds(old(Now()), size, PostBatch(msgs), ProducerStep, Now())
    {
      Counts();
      hide Inv;
      hide Room;
      Refused(Now(), size, PostBatch(msgs), ProducerStep);
      if Room(pi, ci, cells.Length) < |msgs| {
        return false;
      }
      Publish(msgs, PostBatch(msgs));
      ok := true;
    }

    // -------------------------------------------------------------- polling

    lemma Stored(i: nat)
      requires Valid() && i < |Backlog()|
      ensures 0 < cells.Length && Holds(cells[Slot(ci + i, cells.Length)], Backlog()[i])
    {
      SlotAdd(|polled|, i, cells.Length);
      hide Slot;
      hide Holds;
      assert Holds(cells[..][Slot(|polled| + i, cells.Length)], Backlog()[i]);
    }

    /** Consumes the oldest `n` messages, all of which fit the buffer. */
    method Advance(n: nat, ghost max: nat, ghost cap: nat)
      requires Valid() && n == Min(|Backlog()|, max) && Fit(Backlog()[..n], cap)
      modifies this`ci, this`polled
      ensures Valid() && Backlog() == old(Backlog())[n..]
      ensures CallEnds(old(Now()), size, Poll(max, cap), ConsumerStep, Now())
    {
      ghost var s := Now();
      ghost var k := PollAlone(s, size, max, cap);
      hide Run;
      hide HoldAll;
      hide Slot;
      ci := Slot(ci + n, cells.Length);
      polled := posted[..|polled| + n];
      assert Now() == PollEnd(s, max, cap);
      assert CallEnds(s, size, Poll(max, cap), ConsumerStep, Now());
    }

    lemma NothingTaken(max: nat, cap: nat)
      requires Valid()
      requires Backlog() == [] || !Fit(Backlog()[..Min(|Backlog()|, max)], cap)
      ensures CallEnds(Now(), size, Poll(max, cap), ConsumerStep, Now())
    {
      var k := PollAlone(Now(), size, max, cap);
      NothingConsumed(Now(), size);
    }

    /** Fails on an empty ring and on a message longer than the buffer; a failure consumes nothing. */
    method PollTx(cap: nat) returns (msg: Option<Msg>)
      requires Valid()
      modifies this`ci, this`polled
      ensures Valid()
      ensures msg.Some? <==> old(Backlog()) != [] && |old(Backlog())[0]| <= cap
      ensures msg.Some? ==> msg.value == old(Backlog())[0] && Backlog() == old(Backlog())[1..]
      ensures msg.None? ==> Backlog() == old(Backlog())
      ensures CallEnds(old(Now()), size, Poll(1, cap), ConsumerStep, Now())
    {
      Counts();
      hide Inv;
      hide CallEnds;
      if pi == ci {
        NothingTaken(1, cap);
        return None;
      }
      Stored(0);
      var cell := cells[Slot(ci + 0, cells.Length)];
      if cap < cell.avail {
        assert |Backlog()[..1][0]| > cap;
        NothingTaken(1, cap);
        return None;
      }
      msg := Some(cell.payload[..cell.avail]);
      assert msg.value == Backlog()[0];
      hide Slot;
      Advance(1, 1, cap);
    }

    /** `None` is the error return. */
    method PollTxBatch(cap: nat, max: nat) returns (msgs: Option<seq<Msg>>)
      requires Valid()
      modifies this`ci, this`polled
      ensures Valid()
      ensures msgs.None? <==> !Fit(old(Backlog())[..Min(|old(Backlog())|, max)], cap)
      ensures msgs.Some? ==> |msgs.value| == Min(|old(Backlog())|, max) && old(Backlog()) == msgs.value + Backlog()
      ensures msgs.None? ==> Backlog() == old(Backlog())
      ensures CallEnds(old(Now()), size, Poll(max, cap), ConsumerStep, Now())
    {
      Counts();
      hide Inv;
      hide CallEnds;
      hide Slot;
      hide Ready;
      if pi == ci {
        NothingTaken(max, cap);
        return Some([]);
      }
      var n := Min(Ready(pi, ci, cells.Length), max);
      ghost var all: seq<Msg> := Backlog();
      var got := [];
      for i := 0 to n
        modifies {}
        invariant got == all[..i]
        invariant forall k :: 0 <= k < i ==> |all[k]| <= cap
      {
        Stored(i);
        var cell := cells[Slot(ci + i, cells.Length)];
        if cap < cell.avail {
          assert all[..n][i] == all[i];
          NothingTaken(max, cap);
          return None;
        }
        assert cell.payload[..cell.avail] == all[i];
        got := got + [cell.payload[..cell.avail]];
        assert all[..i] + [all[i]] == all[..i + 1];
      }
      Advance(n, max, cap);
      msgs := Some(got);
    }
  }

  /** A call whose first check fails changes nothing. */
  lemma Refused(s: State, size: nat, call: Step, own: Step)
    requires Shape(s, size)
    ensures Next(s, size, call) == s ==> CallEnds(s, size, call, own, s)
  {
    if Next(s, size, call) == s {
      assert ([call] + Times(own, 0))[1..] == [];
      assert s == Run(s, size, [call] + Times(own, 0));
    }
  }

  /** A run of one call keeps the invariant. */
  lemma AfterAll(s: State, size: nat, call: Step, run: seq<Step>)
    requires Inv(s, size) && Allowed(call, size) && exists n :: run == [call] + Times(ProducerStep, n)
    ensures Inv(Run(s, size, run), size) && CallEnds(s, size, call, ProducerStep, Run(s, size, run))
  {
    hide Inv;
    hide Next;
    InvRun(s, size, run);
  }
}

/** The two-level timing wheel.  Each method that the source runs under the wheel lock is one method
    here; a callback runs with the lock dropped, so anything another thread may do happens in it.

    `trace` is the history of timer events; Valid says it is a run that TimerSpec accepts and that the
    wheel stands where that run leads. */
module TimingWheel {
  import opened Words
  import opened TimerSpec
  import opened WheelModel

  const MIN_DELAY: nat := 10
  const MAX_DELAY: nat := 0xFFF_FFFF
  const MAX_JOB: nat := 1000
  const HZ: nat := 500

  /** The backlog bound under which every delay is less than one round of the wheel. */
  const MAX_BACKLOG: nat := 0x800_0000

  function MsToTicks(ms: nat): nat { ms * HZ / 1000 }

  /** `urpc_get_offset_by_level`. */
  function OffsetByLevel(ticks: nat, level: nat): nat {
    if level == 0 then ticks else OffsetByLevel(ticks / SIZE, level - 1)
  }

  lemma OffsetLevels(r: nat)
    ensures OffsetByLevel(r, 0) == r && OffsetByLevel(r, 1) == r / SIZE
  {
  }

  function Fires(run: seq<Event>): nat {
    if run == [] then 0
    else Fires(run[..|run| - 1]) + if run[|run| - 1].Fire? then 1 else 0
  }

  lemma FiresAppend(run: seq<Event>, e: Event)
    ensures Fires(run + [e]) == Fires(run) + if e.Fire? then 1 else 0
  {
  }

  /** Runs only get longer. */
  ghost predicate Grows(a: seq<Event>, b: seq<Event>) { a <= b }

  lemma GrowsTransitive(a: seq<Event>, b: seq<Event>, c: seq<Event>)
    ensures Grows(a, a)
    ensures Grows(a, b) && Grows(b, c) ==> Grows(a, c)
  {
  }

  lemma GrowsAppend(a: seq<Event>, e: Event)
    ensures Grows(a, a + [e])
  {
  }

  class TimingWheel {
    var ticks: nat
    var pending: nat
    var cur0: nat
    var cur1: nat
    var slots: Slots
    var timers: map<Id, Timer>
    var version: nat
    var pool: seq<Id>  // the timers that are free to be handed out
    ghost var moves: map<Id, nat>
    ghost var trace: seq<Event>

    ghost predicate Short()
      reads this`timers
    {
      forall id :: id in timers ==> timers[id].ticks < MAX_BACKLOG
    }

    /** The run that led here has the wheel's clock, its armed timers and their settings. */
    ghost predicate Recorded()
      reads this
    {
      var c := Replay(trace);
      && c.Some? && c.value.now == ticks && c.value.pending == pending
      && c.value.armed == Armed(timers) && Covers(c.value.settings, timers)
    }

    ghost predicate Pooled()
      reads this`pool, this`timers
    {
      NoDup(pool) && forall id :: id in pool ==> id in timers
    }

    ghost predicate Valid()
      reads this
    {
      && cur0 == Digit0(ticks) && cur1 == Digit1(ticks)
      && WheelOk(ticks, slots, timers, moves)
      && Short()
      && Recorded()
      && Pooled()
    }

    /** All `n` timers are in the pool. */
    constructor (n: nat)
      ensures Valid() && ticks == pending == 0 && trace == []
      ensures pool == seq(n, i => i) && timers == map id | id in pool :: UNUSED
    {
      ticks, pending, cur0, cur1, version := 0, 0, 0, 0, 0;
      slots, moves, trace := map[], map[], [];
      var all := seq(n, i => i);
      pool, timers := all, map id | id in all :: UNUSED;
      new;
      assert Armed(timers) == map[];
    }

    // -------------------------------------------------------------- scheduling

    /** `urpc_schedule_timer`: links an unlinked timer into the slot for its deadline. */
    method Schedule(id: Id)
      requires id in timers && timers[id].link.None?
      requires cur0 == Digit0(ticks) && cur1 == Digit1(ticks)
      modifies this`slots, this`timers
      ensures var loc := PlaceOf(ticks, old(timers)[id].end);
              slots == PushAt(old(slots), loc, id) && timers == old(timers)[id := Scheduled(ticks, old(timers)[id])]
    {
      var t := timers[id];
      var remain := if t.end > ticks then t.end - ticks else 0;
      var loc;
      if remain == 0 {
        loc := Loc(0, cur0);
      } else {
        OffsetLevels(remain);
        var level := 1;
        while OffsetByLevel(remain, level) == 0
          invariant 0 <= level <= 1
          invariant level == 0 ==> remain / SIZE == 0
          decreases level
        {
          level := level - 1;
        }
        loc := Loc(level, ((if level == 0 then cur0 else cur1) + OffsetByLevel(remain, level)) % SIZE);
      }
      slots := slots[loc := At(slots, loc) + [id]];
      timers := timers[id := t.(link := Some(loc), status := Pending)];
    }

    /** `urpc_list_remove` on a linked entry. */
    method Unlink(id: Id)
      requires id in timers && timers[id].link.Some?
      modifies this`slots, this`timers
      ensures var loc := old(timers)[id].link.value;
              && slots == old(slots)[loc := Without(At(old(slots), loc), id)]
              && timers == old(timers)[id := old(timers)[id].(link := None)]
    {
      var loc := timers[id].link.value;
      slots := slots[loc := Without(At(slots, loc), id)];
      timers := timers[id := timers[id].(link := None)];
    }

    /** Takes a timer out of its slot list, if it is in one. */
    method Detach(id: Id)
      requires id in timers && WheelOk(ticks, slots, timers, moves)
      modifies this`slots, this`timers
      ensures WheelOk(ticks, slots, timers, moves) && timers == old(timers)[id := old(timers)[id].(link := None)]
      ensures old(timers)[id].link.None? ==> slots == old(slots)
    {
      hide WheelOk;
      if timers[id].link.Some? {
        OkUnlink(ticks, slots, timers, moves, id, timers[id].(link := None));
        Unlink(id);
      }
    }

    /** Takes a timer out of the wheel if it is in, then puts it back with a new deadline. */
    method Relink(id: Id, period: nat, periodic: bool, delay: nat)
      requires WheelOk(ticks, slots, timers, moves) && cur0 == Digit0(ticks) && cur1 == Digit1(ticks)
      requires id in timers && 0 < period && 0 < delay < SIZE * SIZE
      modifies this`slots, this`timers, this`moves
      ensures WheelOk(ticks, slots, timers, moves)
      ensures timers == old(timers)[id := Scheduled(ticks,
        old(timers)[id].(ticks := period, periodic := periodic, end := ticks + delay))]
      ensures old(timers)[id].link.None? ==> slots == PushAt(old(slots), PlaceOf(ticks, ticks + delay), id)
    {
      hide WheelOk;
      hide PlaceOf;
      hide Without;
      hide At;
      Detach(id);
      var t := timers[id].(ticks := period, periodic := periodic, end := ticks + delay);
      OkUpdate(ticks, slots, timers, moves, id, t);
      timers := timers[id := t];
      OkSchedule(ticks, slots, timers, moves, id, t);
      Schedule(id);
      moves := moves[id := 0];
    }

    /** The common part of start, restart and the next round of a periodic timer; `e` records which. */
    method Arm(id: Id, period: nat, periodic: bool, delay: nat, ghost e: Event, ghost s: Setting)
      requires Valid() && id in timers
      requires 0 < period < MAX_BACKLOG && 0 < delay < SIZE * SIZE
      requires Sets(Replay(trace).value, e, id, ticks + delay, s) && s.ticks == period && (periodic ==> s.periodic)
      modifies this`slots, this`timers, this`moves, this`trace
      ensures Valid() && trace == old(trace) + [e]
      ensures id in timers && timers.Keys == old(timers).Keys && timers[id].link.Some?
      ensures timers[id].end == ticks + delay && timers[id].ticks == period && timers[id].periodic == periodic
      ensures forall x :: x in timers && x != id ==> timers[x] == old(timers)[x]
      ensures timers[id].magic == old(timers)[id].magic && timers[id].status == Pending
      ensures old(timers)[id].link.None? ==> slots == PushAt(old(slots), PlaceOf(ticks, ticks + delay), id)
    {
      hide WheelOk;
      hide PlaceOf;
      hide Armed;
      hide Replay;
      hide Apply;
      ghost var t := Scheduled(ticks, timers[id].(ticks := period, periodic := periodic, end := ticks + delay));
      ArmedUpdate(timers, id, t);
      CoversUpdate(Replay(trace).value.settings, timers, id, t, s);
      hide Covers;
      ReplayAppend(trace, e);
      Relink(id, period, periodic, delay);
      trace := trace + [e];
    }

    // -------------------------------------------------------------- the interface

    /** The next timer of the pool is neither linked nor running. */
    predicate HandsOut()
      reads this`pool, this`timers
    {
      && pool != [] && pool[0] in timers
      && timers[pool[0]].link.None? && timers[pool[0]].status != Running
    }

    /** `urpc_timer_create`: the first timer of the pool, which is taken to be neither linked nor running. */
    method Create() returns (id: Option<Id>)
      requires Valid() && (pool == [] || HandsOut())
      modifies this`timers, this`pool
      ensures Valid() && (id.None? <==> old(pool) == [])
      ensures id.None? ==> timers == old(timers) && pool == old(pool)
      ensures id.Some? ==>
        && id.value == old(pool)[0] && pool == old(pool)[1..]
        && timers == old(timers)[id.value := Created(old(timers)[id.value])]
    {
      hide WheelOk;
      hide Armed;
      hide Replay;
      if pool == [] {
        return None;
      }
      SetIdle(pool[0], Created(timers[pool[0]]));
      id := Some(pool[0]);
      pool := pool[1..];
    }

    /** `urpc_timer_pool_put`: nothing happens to a timer that is in the pool already. */
    method PutBack(id: Id)
      requires Valid() && id in timers && timers[id].link.None?
      modifies this`timers, this`pool
      ensures Valid() && timers.Keys == old(timers).Keys
      ensures if id in old(pool) then timers == old(timers) && pool == old(pool)
              else timers == old(timers)[id := old(timers)[id].(status := Invalid)] && pool == [id] + old(pool)
    {
      hide WheelOk;
      hide Armed;
      hide Replay;
      if id !in pool {
        SetIdle(id, timers[id].(status := Invalid));
        NoDupAppend([id], pool);
        pool := [id] + pool;
      }
    }

    /** Only a pending timer is linked. */
    lemma IdleUnlinked(id: Id)
      requires Valid() && id in timers && timers[id].status != Pending
      ensures timers[id].link.None?
    {
    }

    lemma NotOverdue(id: Id)
      requires Valid() && id in Armed(timers)
      ensures ticks <= Armed(timers)[id]
    {
      NeverOverdue(trace, id);
    }

    lemma ListsInOrder()
      requires Valid()
      ensures Linked(slots, timers)
    {
    }

    /** What a restart and a next round do in the run. */
    lemma Renewable(id: Id)
      requires Valid() && id in timers && timers[id].ticks > 0
      ensures var c, t := Replay(trace).value, timers[id];
        && id in c.settings && c.settings[id].ticks == t.ticks && (t.periodic ==> c.settings[id].periodic)
        && Sets(c, Event.Restart(id), id, ticks + (t.ticks + pending), c.settings[id])
        && (t.periodic && t.link.None? ==> Sets(c, Event.Again(id), id, ticks + (t.ticks + pending), c.settings[id]))
    {
      hide WheelOk;
      hide Replay;
      RestartSets(Replay(trace).value, id);
    }

    predicate Usable(id: Id)
      reads this
    {
      id in timers && timers[id].magic
    }

    /** `urpc_timer_start`.  The deadline lies `t + 1` ticks beyond all tick events so far, where `t` is
        the timeout in ticks. */
    method Start(id: Id, ms: nat, hasFunc: bool, periodic: bool) returns (ok: bool)
      requires Valid() && pending < MAX_BACKLOG
      modifies this`slots, this`timers, this`moves, this`trace, this`version
      ensures Valid() && timers.Keys == old(timers).Keys
      ensures ok <==> old(Usable(id)) && hasFunc && MIN_DELAY <= ms <= MAX_DELAY
      ensures ok ==> trace == old(trace) + [Event.Start(id, MsToTicks(ms), periodic)]
      ensures ok ==> id in timers && timers[id].end == MsToTicks(ms) + Arrivals(old(trace)) + 1 && timers[id].link.Some?
      ensures ok ==> id in timers && timers[id].ticks == MsToTicks(ms) && timers[id].periodic == periodic && timers[id].magic
      ensures !ok ==> trace == old(trace) && slots == old(slots) && timers == old(timers)
      ensures version == old(version) + if ok then 1 else 0
      ensures forall x :: x in timers && x != id ==> timers[x] == old(timers)[x]
    {
      hide WheelOk;
      hide Armed;
      hide Replay;
      hide Arrivals;
      if !Usable(id) || !hasFunc || ms < MIN_DELAY || ms > MAX_DELAY {
        return false;
      }
      TickAccounting(trace);
      var t := MsToTicks(ms);
      Arm(id, t, periodic, t + pending + 1, Event.Start(id, t, periodic), Setting(t, periodic));
      version := version + 1;
      ok := true;
    }

    /** `urpc_timer_restart`: the same timer again, `t` ticks beyond all tick events so far. */
    method Restart(id: Id) returns (ok: bool)
      requires Valid() && pending < MAX_BACKLOG
      modifies this`slots, this`timers, this`moves, this`trace, this`version
      ensures Valid() && timers.Keys == old(timers).Keys
      ensures ok <==> old(Usable(id) && timers[id].ticks != 0)
      ensures ok ==> trace == old(trace) + [Event.Restart(id)]
      ensures ok ==> id in timers && timers[id].end == old(timers)[id].ticks + Arrivals(old(trace)) && timers[id].link.Some?
      ensures ok ==>
        id in timers && timers[id].ticks == old(timers)[id].ticks && timers[id].periodic == old(timers)[id].periodic
      ensures !ok ==> trace == old(trace) && slots == old(slots) && timers == old(timers)
      ensures version == old(version) + if ok then 1 else 0
      ensures forall x :: x in timers && x != id ==> timers[x] == old(timers)[x]
    {
      hide WheelOk;
      hide Armed;
      hide Replay;
      hide Arrivals;
      if !Usable(id) || timers[id].ticks == 0 {
        return false;
      }
      TickAccounting(trace);
      var t := timers[id];
      Renewable(id);
      Arm(id, t.ticks, t.periodic, t.ticks + pending, Event.Restart(id), Replay(trace).value.settings[id]);
      version := version + 1;
      ok := true;
    }

    /** What the run of every wheel guarantees: any two firings of a timer that was started once are its
        timeout apart, and a one-shot timer fires again only after a restart. */
    lemma FiringsApart(i: nat, j: nat, j': nat)
      requires Valid() && i < j < j' < |trace| && trace[i].Start?
      requires trace[j] == Fire(trace[i].id) && trace[j'] == Fire(trace[i].id)
      requires NoStart(trace, i + 1, j', trace[i].id)
      ensures Arrivals(trace[..j']) - Arrivals(trace[..j]) >= trace[i].ticks
      ensures trace[i].periodic || exists m :: j < m < j' && trace[m] == Event.Restart(trace[i].id)
    {
      hide Replay;
      hide Arrivals;
      hide NoStart;
      PeriodicSpacing(trace, i, j, j');
      if !trace[i].periodic {
        var m := OneShotFiresOnce(trace, i, j, j');
      }
    }

    /** `urpc_timer_destroy`: a running timer only loses its next round; any other leaves the wheel and goes
        back to the pool. */
    method Destroy(id: Id)
      requires Valid()
      modifies this`slots, this`timers, this`trace, this`version, this`pool
      ensures Valid() && timers.Keys == old(timers).Keys
      ensures forall x :: x in timers && x != id ==> timers[x] == old(timers)[x]
      ensures if !old(Usable(id)) then timers == old(timers) && trace == old(trace)
              else if old(timers)[id].status == Running
              then timers[id] == old(timers)[id].(periodic := false) && trace == old(trace)
              else !timers[id].magic && timers[id].link.None? && id in pool
                   && timers[id].status == (if id in old(pool) then old(timers)[id].status else Invalid)
                   && trace == (if old(timers)[id].link.Some? then old(trace) + [Cancel(id)] else old(trace))
      ensures version == old(version) ==> slots == old(slots)
      ensures version >= old(version)
    {
      hide WheelOk;
      hide Armed;
      hide Replay;
      if !Usable(id) {
        return;
      }
      if timers[id].status == Running {
        IdleUnlinked(id);
        SetIdle(id, timers[id].(periodic := false));
      } else {
        var t := timers[id];
        if t.link.Some? {
          Withdraw(id);
          version := version + 1;
        }
        SetIdle(id, t.(magic := false, link := None));
        PutBack(id);
      }
    }

    /** Changes the record of a timer that is not in the wheel. */
    method SetIdle(id: Id, t: Timer)
      requires Valid() && id in timers && timers[id].link.None? && t.link.None?
      requires t.ticks == 0 || (t.ticks == timers[id].ticks && (t.periodic ==> timers[id].periodic))
      modifies this`timers
      ensures Valid() && timers == old(timers)[id := t]
    {
      hide WheelOk;
      hide Armed;
      hide Replay;
      OkUpdate(ticks, slots, timers, moves, id, t);
      ArmedUpdate(timers, id, t);
      ArmedUnlinked(timers, id);
      timers := timers[id := t];
    }

    /** Takes a linked timer out of the wheel for good. */
    method Withdraw(id: Id)
      requires Valid() && id in timers && timers[id].link.Some?
      modifies this`slots, this`timers, this`trace
      ensures Valid() && timers == old(timers)[id := old(timers)[id].(link := None)] && trace == old(trace) + [Cancel(id)]
    {
      hide WheelOk;
      hide Armed;
      hide Replay;
      hide Without;
      hide At;
      ghost var t := timers[id].(link := None);
      OkUnlink(ticks, slots, timers, moves, id, t);
      ArmedUpdate(timers, id, t);
      ReplayAppend(trace, Cancel(id));
      Unlink(id);
      trace := trace + [Cancel(id)];
    }

    // -------------------------------------------------------------- callbacks

    /** Everything that may happen while a callback runs without the lock: this thread and others may
        create, start, restart and destroy timers in any number and order.  The one timer nobody may
        start or restart is the running one; destroying it only stops its next round. */
    method Callback(running: Id)
      requires Valid() && pending < MAX_BACKLOG
      requires running in timers && timers[running].status == Running
      modifies this`slots, this`timers, this`moves, this`trace, this`version, this`pool
      ensures Valid() && Grows(old(trace), trace) && Fires(trace) == Fires(old(trace))
      ensures running in timers
      ensures timers[running] == old(timers)[running] || timers[running] == old(timers)[running].(periodic := false)
      ensures version >= old(version) && (version == old(version) ==> slots == old(slots))
    {
      hide Valid;
      GrowsTransitive(trace, trace, trace);
      hide Grows;
      hide Fires;
      var n :| 0 <= n;
      for i := 0 to n
        invariant Valid() && Grows(old(trace), trace) && Fires(trace) == Fires(old(trace))
        invariant running in timers && timers[running].status == Running
        invariant timers[running] == old(timers)[running] || timers[running] == old(timers)[running].(periodic := false)
        invariant version >= old(version) && (version == old(version) ==> slots == old(slots))
      {
        ghost var before := trace;
        OtherThread(running);
        GrowsTransitive(old(trace), before, trace);
      }
    }

    /** One call of the interface from anywhere. */
    method OtherThread(running: Id)
      requires Valid() && pending < MAX_BACKLOG
      requires running in timers && timers[running].status == Running
      modifies this`slots, this`timers, this`moves, this`trace, this`version, this`pool
      ensures Valid() && Grows(old(trace), trace) && Fires(trace) == Fires(old(trace))
      ensures running in timers
      ensures timers[running] == old(timers)[running] || timers[running] == old(timers)[running].(periodic := false)
      ensures version >= old(version) && (version == old(version) ==> slots == old(slots))
    {
      hide Valid;
      hide Replay;
      hide Arrivals;
      GrowsTransitive(trace, trace, trace);
      ghost var before := trace;
      var id: Id := *;
      var ms: nat := *;
      var hasFunc: bool, periodic: bool, call: nat := *, *, *;
      if call == 0 && (pool == [] || HandsOut()) {
        var _ := Create();
      } else if call == 1 && id != running {
        var ok := Start(id, ms, hasFunc, periodic);
        if ok {
          Appended(before, trace);
        }
      } else if call == 2 && id != running {
        var ok := Restart(id);
        if ok {
          Appended(before, trace);
        }
      } else if call == 3 {
        Destroy(id);
        if trace != before {
          Appended(before, trace);
        }
      }
    }

    // -------------------------------------------------------------- one slot

    /** Takes the first timer of the current slot and marks it running: it is due now. */
    method FireFirst() returns (id: Id)
      requires Valid() && At(slots, Loc(0, cur0)) != []
      modifies this`slots, this`timers, this`trace
      ensures Valid() && trace == old(trace) + [Fire(id)]
      ensures At(slots, Loc(0, cur0)) == At(old(slots), Loc(0, cur0))[1..]
      ensures id in old(timers) && old(timers)[id].ticks > 0 && old(timers)[id].end == ticks
      ensures timers == old(timers)[id := old(timers)[id].(link := None, status := Running)]
    {
      hide WheelOk;
      hide Armed;
      hide Replay;
      hide Without;
      FirstDue(ticks, slots, timers, moves);
      id := At(slots, Loc(0, cur0))[0];
      ghost var timers0, t := timers, timers[id].(link := None, status := Running);
      OkUnlink(ticks, slots, timers, moves, id, t);
      ArmedUpdate(timers, id, t);
      ArmedHas(timers, id);
      ReplayAppend(trace, Fire(id));
      Unlink(id);
      timers := timers[id := timers[id].(status := Running)];
      assert timers == timers0[id := t];
      trace := trace + [Fire(id)];
    }

    /** After the callback: a one-shot timer goes back to the pool, a periodic one is armed again. */
    method FinishRun(id: Id)
      requires Valid() && pending < MAX_BACKLOG
      requires id in timers && timers[id].status == Running && timers[id].ticks > 0
      modifies this`slots, this`timers, this`moves, this`trace, this`pool
      ensures Valid()
      ensures trace == if old(timers)[id].periodic
                       then old(trace) + [Event.Again(id)]
                       else old(trace)
      ensures old(timers)[id].periodic ==>
        && id in timers && timers[id].end == old(timers)[id].ticks + Arrivals(old(trace)) && timers[id].link.Some?
        && pool == old(pool)
      ensures !old(timers)[id].periodic ==>
        && timers == old(timers)[id := old(timers)[id].(status := if id in old(pool) then Finish else Invalid)]
        && pool == if id in old(pool) then old(pool) else [id] + old(pool)
      ensures At(slots, Loc(0, cur0)) == At(old(slots), Loc(0, cur0))
    {
      hide WheelOk;
      hide Armed;
      hide Replay;
      hide Arrivals;
      IdleUnlinked(id);
      var t := timers[id];
      SetIdle(id, t.(status := Finish));
      if !t.periodic {
        PutBack(id);
      } else {
        TickAccounting(trace);
        var delay := t.ticks + pending;
        LeavesCurrent(ticks, ticks + delay);
        Renewable(id);
        Arm(id, t.ticks, true, delay, Event.Again(id), Replay(trace).value.settings[id]);
      }
    }

    /** `urpc_timing_wheel_process_one_slot`: runs at most `count` due timers.  A positive result means
        that the slot is empty; 0 may also mean a used-up budget, a change made by a callback, or a
        callback that took too long. */
    method ProcessOneSlot(count: nat) returns (remain: nat)
      requires Valid() && pending < MAX_BACKLOG
      modifies this`slots, this`timers, this`moves, this`trace, this`version, this`pool
      ensures Valid() && Grows(old(trace), trace)
      ensures remain > 0 ==> At(slots, Loc(0, cur0)) == []
      ensures Fires(old(trace)) <= Fires(trace) <= Fires(old(trace)) + count - remain
      ensures count > 0 && remain == 0 ==> Fires(trace) > Fires(old(trace))
    {
      hide Valid;
      GrowsTransitive(trace, trace, trace);
      hide Grows;
      hide Fires;
      var version0 := version;
      remain := count;
      while At(slots, Loc(0, cur0)) != []
        invariant Valid() && Grows(old(trace), trace)
        invariant Fires(trace) + remain == Fires(old(trace)) + count && remain <= count
        decreases remain
      {
        if remain == 0 {
          return 0;
        }
        remain := remain - 1;
        ghost var before := trace;
        RunFirst();
        GrowsTransitive(old(trace), before, trace);
        if version != version0 {
          return 0;
        }
        var slow: bool := *;
        if slow {
          return 0;
        }
      }
    }

    /** One turn of the slot loop.  When no callback changed the wheel, the rest of the list is as it was,
        so the successor remembered before the callback is still the first entry. */
    method RunFirst()
      requires Valid() && pending < MAX_BACKLOG && At(slots, Loc(0, cur0)) != []
      modifies this`slots, this`timers, this`moves, this`trace, this`version, this`pool
      ensures Valid() && Grows(old(trace), trace) && Fires(trace) == Fires(old(trace)) + 1
      ensures version >= old(version)
      ensures version == old(version) ==> At(slots, Loc(0, cur0)) == At(old(slots), Loc(0, cur0))[1..]
    {
      hide Valid;
      hide At;
      hide Replay;
      hide Arrivals;
      ghost var trace0 := trace;
      var id := FireFirst();
      FiresAppend(trace0, Fire(id));
      GrowsAppend(trace0, Fire(id));
      ghost var trace1 := trace;
      Callback(id);
      GrowsTransitive(trace0, trace1, trace);
      ghost var trace2 := trace;
      FinishRun(id);
      GrowsTransitive(trace2, trace2, trace2);
      if trace != trace2 {
        Appended(trace2, trace);
      }
      GrowsTransitive(trace0, trace2, trace);
    }

    // -------------------------------------------------------------- stepping

    /** `urpc_timer_rearrange`: empties the level-1 slot under the cursor.  No timer goes back into it. */
    method Rearrange()
      requires cur0 == Digit0(ticks) && cur1 == Digit1(ticks) && cur0 == 0
      requires Linked(slots, timers) && AllPlaced(ticks, timers, moves) && Short()
      modifies this`slots, this`timers, this`moves
      ensures WheelOk(ticks, slots, timers, moves) && Short() && Armed(timers) == old(Armed(timers))
      ensures Moved(old(timers), timers)
    {
      hide AllPlaced;
      hide Linked;
      hide Armed;
      hide Without;
      hide PlaceOf;
      while At(slots, Loc(1, cur1)) != []
        invariant Linked(slots, timers) && AllPlaced(ticks, timers, moves) && Short()
        invariant Armed(timers) == old(Armed(timers)) && Moved(old(timers), timers)
        decreases |At(slots, Loc(1, cur1))|
      {
        var id := At(slots, Loc(1, cur1))[0];
        FirstLinked(slots, timers, Loc(1, cur1));
        OkMove(ticks, slots, timers, moves, id);
        Unlink(id);
        Schedule(id);
        moves := moves[id := moves[id] + 1];
      }
      EmptyIsClear(slots, timers, Under(ticks));
    }

    /** The cursors follow the clock; a new level-1 slot is rearranged. */
    method MoveCursors()
      requires ticks > 0 && cur0 == Digit0(ticks - 1) && cur1 == Digit1(ticks - 1)
      requires Linked(slots, timers) && AllPlaced(ticks, timers, moves) && Short()
      requires Digit0(ticks) != 0 ==> ClearUnder(ticks, timers)
      modifies this`cur0, this`cur1, this`slots, this`timers, this`moves
      ensures cur0 == Digit0(ticks) && cur1 == Digit1(ticks) && WheelOk(ticks, slots, timers, moves) && Short()
      ensures Armed(timers) == old(Armed(timers)) && Moved(old(timers), timers)
    {
      hide WheelOk;
      hide AllPlaced;
      hide Linked;
      hide Armed;
      hide Short;
      MovedSelf(timers);
      hide Moved;
      TickDigits(ticks - 1);
      cur0 := cur0 + 1;
      if cur0 >= SIZE {
        cur0 := 0;
      }
      if cur0 == 0 {
        cur1 := cur1 + 1;
        if cur1 >= SIZE {
          cur1 := 0;
        }
        Rearrange();
      } else {
        OkFromParts(ticks, slots, timers, moves);
      }
    }

    /** Pays off one tick event and moves the clock one step, `urpc_timing_wheel_step_forward`. */
    method StepForward()
      requires Valid() && pending > 0 && At(slots, Loc(0, cur0)) == []
      modifies this
      ensures Valid() && trace == old(trace) + [Advance]
      ensures ticks == old(ticks) + 1 && pending == old(pending) - 1
      ensures Armed(timers) == old(Armed(timers)) && Moved(old(timers), timers) && pool == old(pool)
    {
      hide WheelOk;
      hide AllPlaced;
      hide ClearUnder;
      hide Linked;
      hide Armed;
      hide Replay;
      hide Moved;
      hide Covers;
      hide Short;
      hide NoDup;
      hide At;
      OkTick(ticks, slots, timers, moves);
      ReplayAppend(trace, Advance);
      ghost var settings := Replay(trace).value.settings;
      pending := pending - 1;
      ticks := ticks + 1;
      MoveCursors();
      CoversMoved(settings, old(timers), timers);
      MovedKeys(old(timers), timers, pool);
      trace := trace + [Advance];
    }

    /** `urpc_timer_process`: one tick event.  It never skips a due timer, runs at most 1000 callbacks, and
        the clock plus its backlog grow by exactly one.  Unless a callback runs, the backlog is paid off. */
    method Process()
      requires Valid() && pending + 1 < MAX_BACKLOG
      modifies this
      ensures Valid() && Grows(old(trace), trace)
      ensures ticks + pending == old(ticks) + old(pending) + 1
      ensures Fires(trace) <= Fires(old(trace)) + MAX_JOB
      ensures pending == 0 || Fires(trace) > Fires(old(trace))
    {
      hide Valid;
      hide Fires;
      Tick();
      FiresAppend(old(trace), Arrive);
      GrowsAppend(old(trace), Arrive);
      hide Grows;
      var count := MAX_JOB;
      while count > 0
        invariant Valid() && Grows(old(trace), trace) && pending < MAX_BACKLOG && count > 0
        invariant ticks + pending == old(ticks) + old(pending) + 1
        invariant Fires(trace) + count <= Fires(old(trace)) + MAX_JOB && Fires(trace) >= Fires(old(trace))
        decreases pending
      {
        ghost var before := trace;
        count := ProcessOneSlot(count);
        GrowsTransitive(old(trace), before, trace);
        if count == 0 || pending == 0 {
          break;
        }
        ghost var mid := trace;
        StepForward();
        FiresAppend(mid, Advance);
        GrowsStep(old(trace), mid, Advance);
      }
    }

    method Tick()
      requires Valid()
      modifies this`pending, this`trace
      ensures Valid() && pending == old(pending) + 1 && trace == old(trace) + [Arrive]
    {
      hide WheelOk;
      hide Armed;
      hide Replay;
      ReplayAppend(trace, Arrive);
      pending := pending + 1;
      trace := trace + [Arrive];
    }
  }

  lemma GrowsStep(a: seq<Event>, b: seq<Event>, e: Event)
    requires Grows(a, b)
    ensures Grows(a, b + [e])
  {
  }

  lemma MovedKeys(before: map<Id, Timer>, after: map<Id, Timer>, pool: seq<Id>)
    requires Moved(before, after) && forall id :: id in pool ==> id in before
    ensures after.Keys == before.Keys && forall id :: id in pool ==> id in after
  {
  }

  lemma FirstLinked(slots: Slots, timers: map<Id, Timer>, loc: Loc)
    requires Linked(slots, timers) && At(slots, loc) != []
    ensures At(slots, loc)[0] in timers && timers[At(slots, loc)[0]].link == Some(loc)
  {
  }

  lemma EmptyIsClear(slots: Slots, timers: map<Id, Timer>, loc: Loc)
    requires Linked(slots, timers) && At(slots, loc) == []
    ensures forall id :: id in timers ==> timers[id].link != Some(loc)
  {
  }

  lemma OkFromParts(t: nat, slots: Slots, timers: map<Id, Timer>, moves: map<Id, nat>)
    requires Linked(slots, timers) && AllPlaced(t, timers, moves) && ClearUnder(t, timers)
    ensures WheelOk(t, slots, timers, moves)
  {
  }

  lemma Appended(a: seq<Event>, b: seq<Event>)
    requires |b| == |a| + 1 && b[..|a|] == a && !b[|a|].Fire?
    ensures Grows(a, b) && Fires(b) == Fires(a)
  {
  }

  lemma ArmedHas(timers: map<Id, Timer>, id: Id)
    requires id in timers && timers[id].link.Some?
    ensures id in Armed(timers) && Armed(timers)[id] == timers[id].end
  {
  }

  lemma {:induction false} WithoutAbsent(s: seq<Id>, id: Id)
    requires id !in s
    ensures Without(s, id) == s
  {
    if s != [] {
      WithoutAbsent(s[1..], id);
    }
  }

  lemma WithoutFirst(s: seq<Id>)
    requires s != [] && NoDup(s)
    ensures Without(s, s[0]) == s[1..]
  {
    WithoutAbsent(s[1..], s[0]);
  }

  /** The first timer of the current slot is due at this very tick. */
  lemma FirstDue(t: nat, slots: Slots, timers: map<Id, Timer>, moves: map<Id, nat>)
    requires WheelOk(t, slots, timers, moves) && At(slots, Loc(0, Digit0(t))) != []
    ensures var l := At(slots, Loc(0, Digit0(t)));
            && l[0] in timers && timers[l[0]].link == Some(Loc(0, Digit0(t)))
            && timers[l[0]].end == t && timers[l[0]].ticks > 0
            && Without(l, l[0]) == l[1..]
  {
    hide Placed;
    var loc := Loc(0, Digit0(t));
    var id := At(slots, loc)[0];
    assert TimerOk(t, timers[id], id, moves);
    DueIff(t, timers[id].end, loc, moves[id]);
    WithoutFirst(At(slots, loc));
  }

  /** A timer armed for a later tick does not go into the slot being served. */
  lemma LeavesCurrent(t: nat, end: nat)
    requires t < end < t + SIZE * SIZE
    ensures PlaceOf(t, end) != Loc(0, Digit0(t))
  {
  }

  lemma ArmedUnlinked(timers: map<Id, Timer>, id: Id)
    requires id in timers ==> timers[id].link.None?
    ensures Armed(timers) - {id} == Armed(timers)
  {
  }

  // ---------------------------------------------------------------- what goes wrong

  /** The clock goes on, one tick event at a time, until a timer is due. */
  method WaitForDue(w: TimingWheel, ghost end: nat)
    requires w.Valid() && w.pending == 0 && Armed(w.timers) == map[0 := end]
    modifies w
    ensures w.Valid() && w.pending == 0 && w.pool == old(w.pool) && Moved(old(w.timers), w.timers)
    ensures At(w.slots, Loc(0, w.cur0)) != []
  {
    hide TimingWheel.Valid;
    MovedSelf(w.timers);
    w.NotOverdue(0);
    while At(w.slots, Loc(0, w.cur0)) == []
      invariant w.Valid() && w.pending == 0 && w.pool == old(w.pool) && Moved(old(w.timers), w.timers)
      invariant Armed(w.timers) == map[0 := end] && w.ticks <= end
      decreases end - w.ticks
    {
      w.Tick();
      w.StepForward();
      w.NotOverdue(0);
    }
  }

  /** Timer 0 of a new wheel, started for 10 ms, up to the point where its callback is called. */
  method UpToCallback(periodic: bool) returns (w: TimingWheel)
    ensures fresh(w) && w.Valid() && w.pending == 0 && w.pool == [] && w.timers.Keys == {0}
    ensures var t := w.timers[0];
      t.status == Running && t.magic && t.ticks == 5 && t.periodic == periodic
  {
    hide TimingWheel.Valid;
    w := new TimingWheel(1);
    assert w.pool == [0] && 0 in w.pool && w.timers == map[0 := UNUSED];
    var id := w.Create();
    var ok := w.Start(0, 10, true, periodic);
    ArmedOnly(w.timers, 0);
    ghost var t := w.timers[0];
    WaitForDue(w, t.end);
    assert w.timers[0].(link := None, status := Pending) == t.(link := None, status := Pending);
    var due := w.FireFirst();
  }

  lemma ArmedOnly(timers: map<Id, Timer>, id: Id)
    requires timers.Keys == {id} && timers[id].link.Some?
    ensures Armed(timers) == map[id := timers[id].end]
  {
  }

  /** A one-shot timer that has fired is in the pool with its magic number.  Its old owner restarts it, the
      pool hands it out, and its slot list is no longer in order. */
  method RestartedInPool() returns (w: TimingWheel)
    ensures w.Valid() && w.pool == [0] && 0 in w.timers && w.timers[0].link.Some?
    ensures !Linked(w.slots, w.timers[0 := Created(w.timers[0])])
  {
    hide TimingWheel.Valid;
    w := UpToCallback(false);
    w.FinishRun(0);
    var ok := w.Restart(0);
    w.ListsInOrder();
    hide Linked;
    CreateKeepsIff(w.slots, w.timers, 0);
  }

  /** A periodic timer restarts itself in its callback.  The next round then links it a second time. */
  method RestartedInCallback() returns (w: TimingWheel)
    ensures w.Valid() && 0 in w.timers && w.timers[0].periodic && w.timers[0].link.Some?
    ensures var end := w.timers[0].ticks + w.ticks + w.pending;
      !Linked(PushAt(w.slots, PlaceOf(w.ticks, end), 0), w.timers[0 := Scheduled(w.ticks, w.timers[0].(end := end))])
  {
    hide TimingWheel.Valid;
    w := UpToCallback(true);
    var ok := w.Restart(0);
    w.ListsInOrder();
    hide Linked;
    hide PlaceOf;
    var end := w.timers[0].ticks + w.ticks + w.pending;
    ScheduleKeepsIff(w.slots, w.timers, 0, Scheduled(w.ticks, w.timers[0].(end := end)), PlaceOf(w.ticks, end));
  }
}

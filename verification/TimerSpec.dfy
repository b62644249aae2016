/** What a timer service promises: a clock and a map from armed timers to deadlines.

    A run is a sequence of events.  `Replay` sets the deadlines and accepts exactly the runs in which a
    timer fires only at its deadline, the clock never moves past a deadline that is still armed, and only
    a periodic timer gets a next round by itself.  The lemmas say what every accepted run guarantees in
    terms of the tick events that drive it. */
module TimerSpec {
  import opened Words

  type Id = nat

  datatype Event =
    | Arrive                                        // a tick event: one call of urpc_timer_process
    | Start(id: Id, ticks: nat, periodic: bool)
    | Restart(id: Id)
    | Again(id: Id)                                 // the next round of a periodic timer
    | Cancel(id: Id)
    | Fire(id: Id)                                  // the callback is invoked
    | Advance                                       // the clock takes one step, paying off one tick event

  /** What a timer was last started with. */
  datatype Setting = Setting(ticks: nat, periodic: bool)

  /** `pending` counts tick events that have arrived but not yet moved the clock. */
  datatype Clock = Clock(now: nat, pending: nat, armed: map<Id, nat>, settings: map<Id, Setting>)

  ghost predicate NothingDue(c: Clock) {
    forall id :: id in c.armed ==> c.armed[id] > c.now
  }

  /** A timer that was started before is armed again, its ticks beyond all tick events so far. */
  ghost function Rearmed(c: Clock, id: Id): Option<Clock> {
    if id in c.settings && c.settings[id].ticks > 0
    then Some(c.(armed := c.armed[id := c.now + c.pending + c.settings[id].ticks])) else None
  }

  ghost function Apply(c: Clock, e: Event): Option<Clock> {
    match e
    case Arrive => Some(c.(pending := c.pending + 1))
    case Start(id, t, periodic) =>
      Some(c.(armed := c.armed[id := c.now + c.pending + t + 1], settings := c.settings[id := Setting(t, periodic)]))
    case Restart(id) => Rearmed(c, id)
    case Again(id) => if id in c.settings && c.settings[id].periodic && id !in c.armed then Rearmed(c, id) else None
    case Cancel(id) => Some(c.(armed := c.armed - {id}))
    case Fire(id) => if id in c.armed && c.armed[id] == c.now then Some(c.(armed := c.armed - {id})) else None
    case Advance =>
      if c.pending > 0 && NothingDue(c) then Some(c.(now := c.now + 1, pending := c.pending - 1)) else None
  }

  /** The event arms `id` for `deadline`, with the setting `s`. */
  ghost predicate Sets(c: Clock, e: Event, id: Id, deadline: nat, s: Setting) {
    Apply(c, e) == Some(c.(armed := c.armed[id := deadline], settings := c.settings[id := s]))
  }

  lemma RestartSets(c: Clock, id: Id)
    requires id in c.settings && c.settings[id].ticks > 0
    ensures Sets(c, Restart(id), id, c.now + c.pending + c.settings[id].ticks, c.settings[id])
    ensures c.settings[id].periodic && id !in c.armed ==>
      Sets(c, Again(id), id, c.now + c.pending + c.settings[id].ticks, c.settings[id])
  {
    assert c.settings[id := c.settings[id]] == c.settings;
  }

  /** The clock after a run, None when the run breaks the rules. */
  ghost function Replay(run: seq<Event>): Option<Clock> {
    if run == [] then Some(Clock(0, 0, map[], map[]))
    else
      var before := Replay(run[..|run| - 1]);
      if before.None? then None else Apply(before.value, run[|run| - 1])
  }

  function Arrivals(run: seq<Event>): nat {
    if run == [] then 0
    else Arrivals(run[..|run| - 1]) + if run[|run| - 1].Arrive? then 1 else 0
  }

  predicate Arms(e: Event) { e.Start? || e.Restart? || e.Again? }

  predicate Touches(e: Event, id: Id) {
    (Arms(e) || e.Cancel? || e.Fire?) && e.id == id
  }

  ghost predicate Untouched(run: seq<Event>, i: nat, j: nat, id: Id)
    requires i <= j <= |run|
  {
    forall k :: i <= k < j ==> !Touches(run[k], id)
  }

  lemma ReplayAppend(run: seq<Event>, e: Event)
    requires Replay(run).Some?
    ensures Replay(run + [e]) == Apply(Replay(run).value, e)
  {
  }

  lemma ArrivalsAppend(run: seq<Event>, e: Event)
    ensures Arrivals(run + [e]) == Arrivals(run) + if e.Arrive? then 1 else 0
  {
  }

  /** Every prefix of a run that keeps the rules keeps them. */
  lemma {:induction false} ReplayPrefix(run: seq<Event>, k: nat)
    requires Replay(run).Some? && k <= |run|
    ensures Replay(run[..k]).Some?
    decreases |run|
  {
    if k < |run| {
      ReplayPrefix(run[..|run| - 1], k);
      assert run[..|run| - 1][..k] == run[..k];
    } else {
      assert run[..k] == run;
    }
  }

  lemma PrefixStep(run: seq<Event>, k: nat)
    requires Replay(run).Some? && k < |run|
    ensures Replay(run[..k]).Some? && Replay(run[..k + 1]).Some?
    ensures Replay(run[..k + 1]) == Apply(Replay(run[..k]).value, run[k])
    ensures Arrivals(run[..k + 1]) == Arrivals(run[..k]) + if run[k].Arrive? then 1 else 0
  {
    ReplayPrefix(run, k);
    ReplayPrefix(run, k + 1);
    assert run[..k + 1] == run[..k] + [run[k]];
    ReplayAppend(run[..k], run[k]);
    ArrivalsAppend(run[..k], run[k]);
  }

  /** Tick accounting: the clock and its backlog together count the tick events, exactly. */
  lemma {:induction false} TickAccounting(run: seq<Event>)
    requires Replay(run).Some?
    ensures Replay(run).value.now + Replay(run).value.pending == Arrivals(run)
    decreases |run|
  {
    if run != [] {
      TickAccounting(run[..|run| - 1]);
    }
  }

  /** No armed deadline ever lies in the past. */
  lemma {:induction false} NeverOverdue(run: seq<Event>, id: Id)
    requires Replay(run).Some? && id in Replay(run).value.armed
    ensures Replay(run).value.now <= Replay(run).value.armed[id]
    decreases |run|
  {
    if run != [] {
      var before, e := Replay(run[..|run| - 1]).value, run[|run| - 1];
      if id in before.armed {
        NeverOverdue(run[..|run| - 1], id);
      }
    }
  }

  lemma ArmsArms(c: Clock, e: Event)
    requires Arms(e) && Apply(c, e).Some?
    ensures e.id in Apply(c, e).value.armed
  {
  }

  lemma Unmoved(run: seq<Event>, k: nat, id: Id)
    requires Replay(run).Some? && k < |run| && !Touches(run[k], id)
    requires Replay(run[..k]).Some? && id in Replay(run[..k]).value.armed
    ensures Replay(run[..k + 1]).Some?
    ensures var c, c' := Replay(run[..k]).value, Replay(run[..k + 1]).value; id in c'.armed && c'.armed[id] == c.armed[id]
  {
    hide Replay;
    hide NothingDue;
    PrefixStep(run, k);
  }

  /** The deadline that the event at `i` sets. */
  ghost function Deadline(run: seq<Event>, i: nat): nat
    requires Replay(run).Some? && i < |run| && Arms(run[i])
  {
    PrefixStep(run, i);
    Replay(run[..i + 1]).value.armed[run[i].id]
  }

  /** An armed timer that nothing touches stays armed with its deadline. */
  lemma {:induction false} StaysArmed(run: seq<Event>, i: nat, j: nat)
    requires Replay(run).Some? && i < j <= |run| && Arms(run[i]) && Untouched(run, i + 1, j, run[i].id)
    ensures Replay(run[..j]).Some?
    ensures var c := Replay(run[..j]).value; run[i].id in c.armed && c.armed[run[i].id] == Deadline(run, i)
    decreases j
  {
    hide Replay;
    hide Apply;
    PrefixStep(run, j - 1);
    if i < j - 1 {
      StaysArmed(run, i, j - 1);
      Unmoved(run, j - 1, run[i].id);
    } else {
      ArmsArms(Replay(run[..i]).value, run[i]);
    }
  }

  /** Whatever is armed was armed by a last event, with its deadline. */
  lemma {:induction false} LastArming(run: seq<Event>, j: nat, id: Id) returns (m: nat)
    requires Replay(run).Some? && j <= |run|
    requires Replay(run[..j]).Some? && id in Replay(run[..j]).value.armed
    ensures m < j && Arms(run[m]) && run[m].id == id && Untouched(run, m + 1, j, id)
    ensures Replay(run[..j]).value.armed[id] == Deadline(run, m)
    decreases j
  {
    assert run[..0] == [];
    PrefixStep(run, j - 1);
    if Touches(run[j - 1], id) {
      m := j - 1;
    } else {
      m := LastArming(run, j - 1, id);
    }
  }

  ghost predicate NoStart(run: seq<Event>, i: nat, j: nat, id: Id)
    requires i <= j <= |run|
  {
    forall k :: i <= k < j ==> !(run[k].Start? && run[k].id == id)
  }

  /** Nothing but a start changes what a timer is set to. */
  lemma {:induction false} SettingStays(run: seq<Event>, i: nat, j: nat)
    requires Replay(run).Some? && i < j <= |run| && run[i].Start? && NoStart(run, i + 1, j, run[i].id)
    ensures Replay(run[..j]).Some?
    ensures var c := Replay(run[..j]).value;
      run[i].id in c.settings && c.settings[run[i].id] == Setting(run[i].ticks, run[i].periodic)
    decreases j
  {
    PrefixStep(run, j - 1);
    if i < j - 1 {
      SettingStays(run, i, j - 1);
    }
  }

  /** A start sets the deadline one tick more than its timeout beyond all tick events so far; a restart or
      a next round sets it one timeout beyond them. */
  lemma DeadlineIs(run: seq<Event>, i: nat, m: nat)
    requires Replay(run).Some? && i <= m < |run| && run[i].Start? && Arms(run[m]) && run[m].id == run[i].id
    requires NoStart(run, i + 1, m + 1, run[i].id)
    ensures m == i ==> Deadline(run, m) == Arrivals(run[..m]) + run[i].ticks + 1
    ensures m > i ==> Deadline(run, m) == Arrivals(run[..m]) + run[i].ticks
    ensures run[m].Again? ==> run[i].periodic
  {
    PrefixStep(run, m);
    TickAccounting(run[..m]);
    if i < m {
      SettingStays(run, i, m);
    }
  }

  /** The clock is never moved past a deadline that was not fired, cancelled or set anew. */
  lemma NeverPassed(run: seq<Event>, i: nat, j: nat)
    requires Replay(run).Some? && i < j <= |run| && Arms(run[i]) && Untouched(run, i + 1, j, run[i].id)
    ensures Replay(run[..j]).Some? && Replay(run[..j]).value.now <= Deadline(run, i)
  {
    StaysArmed(run, i, j);
    NeverOverdue(run[..j], run[i].id);
  }

  /** Every callback was armed, and runs exactly at the deadline of its last arming, after at least as many
      tick events. */
  lemma FiresOnTime(run: seq<Event>, j: nat) returns (m: nat)
    requires Replay(run).Some? && j < |run| && run[j].Fire?
    ensures m < j && Arms(run[m]) && run[m].id == run[j].id && Untouched(run, m + 1, j, run[j].id)
    ensures Replay(run[..j]).Some? && Replay(run[..j]).value.now == Deadline(run, m) <= Arrivals(run[..j])
  {
    PrefixStep(run, j);
    m := LastArming(run, j, run[j].id);
    TickAccounting(run[..j]);
  }

  /** A timer started with `t` ticks and then left alone fires only after at least `t + 1` further tick
      events. */
  lemma FiresAfterDelay(run: seq<Event>, i: nat, j: nat)
    requires Replay(run).Some? && i < j < |run| && run[i].Start?
    requires run[j] == Fire(run[i].id) && Untouched(run, i + 1, j, run[i].id)
    ensures Arrivals(run[..j]) - Arrivals(run[..i]) >= run[i].ticks + 1
  {
    var m := FiresOnTime(run, j);
    assert Touches(run[i], run[j].id) && Touches(run[m], run[j].id);
    DeadlineIs(run, i, i);
  }

  lemma {:induction false} ArrivalsMonotonic(run: seq<Event>, i: nat, j: nat)
    requires i <= j <= |run|
    ensures Arrivals(run[..i]) <= Arrivals(run[..j])
    decreases j
  {
    if i < j {
      ArrivalsMonotonic(run, i, j - 1);
      assert run[..j] == run[..j - 1] + [run[j - 1]];
      ArrivalsAppend(run[..j - 1], run[j - 1]);
    }
  }

  /** Between two firings a timer is armed again. */
  lemma ArmedBetween(run: seq<Event>, j: nat, j': nat) returns (m: nat)
    requires Replay(run).Some? && j < j' < |run| && run[j].Fire? && run[j'] == run[j]
    ensures j < m < j' && Arms(run[m]) && run[m].id == run[j].id && Deadline(run, m) <= Arrivals(run[..j'])
  {
    m := FiresOnTime(run, j');
    assert Touches(run[j], run[j].id);
  }

  /** Any two firings of a timer that was started with `t` ticks and not started anew are at least `t` tick
      events apart, however often it was cancelled or restarted in between. */
  lemma PeriodicSpacing(run: seq<Event>, i: nat, j: nat, j': nat)
    requires Replay(run).Some? && i < j < j' < |run| && run[i].Start?
    requires run[j] == Fire(run[i].id) && run[j'] == Fire(run[i].id) && NoStart(run, i + 1, j', run[i].id)
    ensures Arrivals(run[..j']) - Arrivals(run[..j]) >= run[i].ticks
  {
    var m := ArmedBetween(run, j, j');
    DeadlineIs(run, i, m);
    ArrivalsMonotonic(run, j, m);
  }

  /** A one-shot timer fires a second time only if somebody restarts it. */
  lemma OneShotFiresOnce(run: seq<Event>, i: nat, j: nat, j': nat) returns (m: nat)
    requires Replay(run).Some? && i < j < j' < |run| && run[i].Start? && !run[i].periodic
    requires run[j] == Fire(run[i].id) && run[j'] == Fire(run[i].id) && NoStart(run, i + 1, j', run[i].id)
    ensures j < m < j' && run[m] == Restart(run[i].id)
  {
    m := ArmedBetween(run, j, j');
    DeadlineIs(run, i, m);
  }
}

/** The slots of the two-level timing wheel, on values: where a timer is put, when that slot comes up,
    and how the slot lists and the timers' links agree. */
module WheelModel {
  import opened Words
  import opened TimerSpec

  /** Slots per level, 2^14. */
  const SIZE: nat := 16384

  datatype Loc = Loc(level: nat, pos: nat)

  datatype Status = Invalid | Inited | Pending | Running | Finish

  /** `link` is the slot list the timer's entry is linked into, if any. */
  datatype Timer = Timer(end: nat, ticks: nat, periodic: bool, status: Status, magic: bool, link: Option<Loc>)

  function Digit0(t: nat): nat { t % SIZE }

  function Lap(t: nat): nat { t / SIZE }

  function Digit1(t: nat): nat { Lap(t) % SIZE }

  // ---------------------------------------------------------------- placement

  /** The slot `urpc_schedule_timer` picks at tick `t` for a timer that ends at `end`. */
  function PlaceOf(t: nat, end: nat): Loc {
    if end <= t then Loc(0, Digit0(t))
    else
      var r := end - t;
      if r / SIZE > 0 then Loc(1, (Digit1(t) + r / SIZE) % SIZE)
      else Loc(0, (Digit0(t) + r) % SIZE)
  }

  /** The first tick from the start of the current lap on at which the level-1 cursor reaches `pos`. */
  function VisitTick(t: nat, pos: nat): nat {
    SIZE * (Lap(t) + (pos - Digit1(t)) % SIZE)
  }

  /** The slot is reached no later than the deadline; a timer is moved at most twice on its way. */
  predicate Placed(t: nat, end: nat, loc: Loc, moves: nat) {
    && loc.pos < SIZE
    && (loc.level == 0 || loc.level == 1)
    && (loc.level == 0 ==> t <= end < t + SIZE && loc.pos == Digit0(end) && moves <= 2)
    && (loc.level == 1 ==>
          && VisitTick(t, loc.pos) <= end
          && (if moves == 0 then end < VisitTick(t, loc.pos) + 2 * SIZE - 1
              else moves == 1 && end < VisitTick(t, loc.pos) + SIZE))
  }

  /** The level-1 slot under the cursor at tick `t`. */
  function Under(t: nat): Loc { Loc(1, Digit1(t)) }

  lemma Digits(t: nat)
    ensures t == SIZE * Lap(t) + Digit0(t) && Digit0(t) < SIZE && Digit1(t) < SIZE
  {
  }

  lemma SumDigit(t: nat, r: nat)
    ensures (Digit0(t) + r) % SIZE == Digit0(t + r)
  {
  }

  /** `offset` laps ahead, for less than a full round, the cursor stands at the slot picked now. */
  lemma VisitOfOffset(t: nat, offset: nat)
    requires 1 <= offset < SIZE
    ensures var pos := (Digit1(t) + offset) % SIZE;
            pos != Digit1(t) && VisitTick(t, pos) == SIZE * (Lap(t) + offset)
  {
  }

  /** Scheduling puts a timer where it is reached in time, and never under the level-1 cursor. */
  lemma ScheduleFresh(t: nat, end: nat)
    requires t < end < t + SIZE * SIZE
    ensures Placed(t, end, PlaceOf(t, end), 0) && PlaceOf(t, end) != Under(t)
  {
    var r := end - t;
    Digits(t);
    if r / SIZE > 0 {
      VisitOfOffset(t, r / SIZE);
    } else {
      SumDigit(t, r);
    }
  }

  /** Moving the timers of the level-1 slot that just came up never feeds that slot again. */
  lemma ScheduleMoved(t: nat, end: nat, moves: nat)
    requires Digit0(t) == 0 && Placed(t, end, Under(t), moves)
    ensures Placed(t, end, PlaceOf(t, end), moves + 1) && PlaceOf(t, end) != Under(t)
  {
    Digits(t);
    UnderVisit(t);
    var r := end - t;
    if r / SIZE > 0 {
      assert r / SIZE == 1;
      VisitOfOffset(t, 1);
    } else {
      SumDigit(t, r);
    }
  }

  lemma UnderVisit(t: nat)
    ensures VisitTick(t, Digit1(t)) == SIZE * Lap(t)
  {
  }

  /** A level-1 slot other than the one under the cursor comes up strictly later. */
  lemma VisitLater(t: nat, pos: nat)
    requires pos < SIZE && pos != Digit1(t)
    ensures VisitTick(t, pos) > t
  {
  }

  /** A timer is due exactly when it sits in the level-0 slot under the cursor. */
  lemma DueIff(t: nat, end: nat, loc: Loc, moves: nat)
    requires Placed(t, end, loc, moves) && loc != Under(t)
    ensures t <= end
    ensures loc == Loc(0, Digit0(t)) <==> end == t
  {
    if loc.level == 1 {
      VisitLater(t, loc.pos);
    } else {
      Digits(t);
      Digits(end);
    }
  }

  /** A tick leaves every timer well placed that is neither due now nor under the cursor. */
  lemma TickKeeps(t: nat, end: nat, loc: Loc, moves: nat)
    requires Placed(t, end, loc, moves) && t < end && loc != Under(t)
    ensures Placed(t + 1, end, loc, moves)
  {
    if loc.level == 1 {
      VisitStays(t, loc.pos);
    }
  }

  lemma TickDigits(t: nat)
    ensures if Digit0(t) + 1 < SIZE
            then Digit0(t + 1) == Digit0(t) + 1 && Lap(t + 1) == Lap(t)
            else Digit0(t + 1) == 0 && Lap(t + 1) == Lap(t) + 1
    ensures Digit1(t + 1) == if Digit0(t) + 1 < SIZE then Digit1(t)
                             else if Digit1(t) + 1 < SIZE then Digit1(t) + 1 else 0
  {
  }

  lemma VisitStays(t: nat, pos: nat)
    requires pos < SIZE && pos != Digit1(t)
    ensures VisitTick(t + 1, pos) == VisitTick(t, pos)
  {
    TickDigits(t);
    Digits(t);
    if Digit0(t) + 1 >= SIZE {
      var d, d' := Digit1(t), Digit1(t + 1);
      var a := pos - d;
      if a > 0 {
        DivModUnique(a, 0, a, SIZE);
        DivModUnique(pos - d', 0, a - 1, SIZE);
      } else {
        DivModUnique(a, -1, a + SIZE, SIZE);
        if d' == 0 {
          DivModUnique(pos, 0, pos, SIZE);
        } else {
          DivModUnique(pos - d', -1, a - 1 + SIZE, SIZE);
        }
      }
    }
  }

  // ---------------------------------------------------------------- slot lists

  type Slots = map<Loc, seq<Id>>

  function At(slots: Slots, loc: Loc): seq<Id> { if loc in slots then slots[loc] else [] }

  function Without(s: seq<Id>, id: Id): (r: seq<Id>)
    ensures |r| <= |s| && (id in s ==> |r| < |s|)
    ensures forall x :: x in r <==> x in s && x != id
  {
    if s == [] then []
    else if s[0] == id then Without(s[1..], id)
    else [s[0]] + Without(s[1..], id)
  }

  /** Every linked timer is in exactly the one list its link names. */
  ghost predicate Linked(slots: Slots, timers: map<Id, Timer>) {
    && (forall loc, id :: loc in slots && id in slots[loc] ==> id in timers && timers[id].link == Some(loc))
    && (forall id :: id in timers && timers[id].link.Some? ==> id in At(slots, timers[id].link.value))
    && (forall loc :: loc in slots ==> NoDup(slots[loc]))
  }

  lemma {:induction false} WithoutNoDup(s: seq<Id>, id: Id)
    requires NoDup(s)
    ensures NoDup(Without(s, id))
    decreases |s|
  {
    if s != [] {
      WithoutNoDup(s[1..], id);
      if s[0] != id {
        var r := Without(s[1..], id);
        forall i, j | 0 <= i < j < |[s[0]] + r|
          ensures ([s[0]] + r)[i] != ([s[0]] + r)[j]
        {
          if i == 0 {
            assert r[j - 1] in r;
          }
        }
      }
    }
  }

  /** Appending to a list links a timer that was in none. */
  lemma LinkedPush(slots: Slots, timers: map<Id, Timer>, id: Id, t: Timer, loc: Loc)
    requires Linked(slots, timers) && (id in timers ==> timers[id].link.None?) && t.link == Some(loc)
    ensures Linked(slots[loc := At(slots, loc) + [id]], timers[id := t])
  {
    var l := At(slots, loc);
    assert id !in l;
    var slots', timers' := slots[loc := l + [id]], timers[id := t];
    forall k, x | k in slots' && x in slots'[k]
      ensures x in timers' && timers'[x].link == Some(k)
    {
      assert x == id || x in slots[k];
    }
    forall x | x in timers' && timers'[x].link.Some?
      ensures x in At(slots', timers'[x].link.value)
    {
      assert x == id || x in At(slots, timers[x].link.value);
    }
  }

  lemma LinkedUnlink(slots: Slots, timers: map<Id, Timer>, id: Id, t: Timer)
    requires Linked(slots, timers) && id in timers && timers[id].link.Some? && t.link.None?
    ensures var loc := timers[id].link.value; Linked(slots[loc := Without(At(slots, loc), id)], timers[id := t])
  {
    hide NoDup;
    hide Without;
    var loc := timers[id].link.value;
    WithoutNoDup(At(slots, loc), id);
    var slots', timers' := slots[loc := Without(At(slots, loc), id)], timers[id := t];
    forall l, x | l in slots' && x in slots'[l]
      ensures x in timers' && timers'[x].link == Some(l)
    {
      assert x in slots[l];
    }
    forall x | x in timers' && timers'[x].link.Some?
      ensures x in At(slots', timers'[x].link.value)
    {
      assert x in At(slots, timers[x].link.value);
    }
  }

  /** The abstract view: linked timers and their deadlines. */
  ghost function Armed(timers: map<Id, Timer>): map<Id, nat> {
    map id | id in timers && timers[id].link.Some? :: timers[id].end
  }

  lemma ArmedUpdate(timers: map<Id, Timer>, id: Id, t: Timer)
    ensures t.link.Some? ==> Armed(timers[id := t]) == Armed(timers)[id := t.end]
    ensures t.link.None? ==> Armed(timers[id := t]) == Armed(timers) - {id}
  {
  }

  /** The settings of the run are those of the timers; a destroyed running timer loses only its rounds. */
  ghost predicate Covers(settings: map<Id, Setting>, timers: map<Id, Timer>) {
    forall id :: id in timers && timers[id].ticks > 0 ==>
      && id in settings && settings[id].ticks == timers[id].ticks
      && (timers[id].periodic ==> settings[id].periodic)
  }

  /** The same timers, possibly in other slots. */
  ghost predicate Moved(before: map<Id, Timer>, after: map<Id, Timer>) {
    && after.Keys == before.Keys
    && forall id :: id in before ==>
         after[id].(link := None, status := Pending) == before[id].(link := None, status := Pending)
  }

  lemma CoversUpdate(settings: map<Id, Setting>, timers: map<Id, Timer>, id: Id, t: Timer, s: Setting)
    requires Covers(settings, timers) && t.ticks == s.ticks && (t.periodic ==> s.periodic)
    ensures Covers(settings[id := s], timers[id := t])
  {
  }

  lemma CoversMoved(settings: map<Id, Setting>, before: map<Id, Timer>, after: map<Id, Timer>)
    requires Covers(settings, before) && Moved(before, after)
    ensures Covers(settings, after)
  {
    forall id | id in after
      ensures after[id].ticks == before[id].ticks && after[id].periodic == before[id].periodic
    {
      assert after[id].(link := None, status := Pending) == before[id].(link := None, status := Pending);
    }
  }

  lemma MovedSelf(timers: map<Id, Timer>)
    ensures Moved(timers, timers)
  {
  }

  // ---------------------------------------------------------------- the wheel invariant

  ghost predicate TimerOk(t: nat, timer: Timer, id: Id, moves: map<Id, nat>) {
    timer.link.Some? ==>
      && id in moves && Placed(t, timer.end, timer.link.value, moves[id])
      && timer.status == Pending && timer.ticks > 0
  }

  ghost predicate AllPlaced(t: nat, timers: map<Id, Timer>, moves: map<Id, nat>) {
    forall id :: id in timers ==> TimerOk(t, timers[id], id, moves)
  }

  /** The level-1 slot under the cursor is empty. */
  ghost predicate ClearUnder(t: nat, timers: map<Id, Timer>) {
    forall id :: id in timers ==> timers[id].link != Some(Under(t))
  }

  ghost predicate WheelOk(t: nat, slots: Slots, timers: map<Id, Timer>, moves: map<Id, nat>) {
    Linked(slots, timers) && AllPlaced(t, timers, moves) && ClearUnder(t, timers)
  }

  /** The slot list after scheduling a timer that ends at `end`. */
  function PushAt(slots: Slots, loc: Loc, id: Id): Slots { slots[loc := At(slots, loc) + [id]] }

  function Scheduled(t: nat, timer: Timer): Timer {
    timer.(link := Some(PlaceOf(t, timer.end)), status := Pending)
  }

  lemma OkSchedule(t: nat, slots: Slots, timers: map<Id, Timer>, moves: map<Id, nat>, id: Id, timer: Timer)
    requires WheelOk(t, slots, timers, moves) && (id in timers ==> timers[id].link.None?)
    requires t < timer.end < t + SIZE * SIZE && timer.ticks > 0
    ensures WheelOk(t, PushAt(slots, PlaceOf(t, timer.end), id), timers[id := Scheduled(t, timer)], moves[id := 0])
  {
    hide Placed;
    hide PlaceOf;
    hide Linked;
    ScheduleFresh(t, timer.end);
    LinkedPush(slots, timers, id, Scheduled(t, timer), PlaceOf(t, timer.end));
  }

  lemma OkUnlink(t: nat, slots: Slots, timers: map<Id, Timer>, moves: map<Id, nat>, id: Id, timer: Timer)
    requires WheelOk(t, slots, timers, moves) && id in timers && timers[id].link.Some? && timer.link.None?
    ensures var loc := timers[id].link.value;
            WheelOk(t, slots[loc := Without(At(slots, loc), id)], timers[id := timer], moves)
  {
    hide Linked;
    hide Placed;
    LinkedUnlink(slots, timers, id, timer);
  }

  lemma OkUpdate(t: nat, slots: Slots, timers: map<Id, Timer>, moves: map<Id, nat>, id: Id, timer: Timer)
    requires WheelOk(t, slots, timers, moves) && timer.link.None? && (id in timers ==> timers[id].link.None?)
    ensures WheelOk(t, slots, timers[id := timer], moves)
  {
  }

  /** The tick itself: nothing is due, so everything stays well placed; only a new level-1 slot may now
      be under the cursor. */
  lemma OkTick(t: nat, slots: Slots, timers: map<Id, Timer>, moves: map<Id, nat>)
    requires WheelOk(t, slots, timers, moves) && At(slots, Loc(0, Digit0(t))) == []
    ensures Linked(slots, timers) && AllPlaced(t + 1, timers, moves)
    ensures Digit0(t + 1) != 0 ==> ClearUnder(t + 1, timers)
    ensures forall id :: id in Armed(timers) ==> Armed(timers)[id] > t
  {
    hide Placed;
    forall id | id in timers && timers[id].link.Some?
      ensures timers[id].end > t && TimerOk(t + 1, timers[id], id, moves)
    {
      assert TimerOk(t, timers[id], id, moves);
      var loc := timers[id].link.value;
      assert id in At(slots, loc);
      DueIff(t, timers[id].end, loc, moves[id]);
      TickKeeps(t, timers[id].end, loc, moves[id]);
    }
    TickDigits(t);
  }

  /** One timer of the slot that came up is moved: it leaves the slot and never returns to it. */
  lemma OkMove(t: nat, slots: Slots, timers: map<Id, Timer>, moves: map<Id, nat>, id: Id)
    requires Linked(slots, timers) && AllPlaced(t, timers, moves) && Digit0(t) == 0
    requires id in timers && timers[id].link == Some(Under(t))
    ensures id in moves
    ensures var timer := timers[id].(link := None);
            var slots1 := slots[Under(t) := Without(At(slots, Under(t)), id)];
            var loc := PlaceOf(t, timer.end);
            && loc != Under(t)
            && Linked(PushAt(slots1, loc, id), timers[id := timer][id := Scheduled(t, timer)])
            && AllPlaced(t, timers[id := timer][id := Scheduled(t, timer)], moves[id := moves[id] + 1])
            && Armed(timers[id := timer][id := Scheduled(t, timer)]) == Armed(timers)
  {
    hide Placed;
    hide PlaceOf;
    hide Linked;
    assert TimerOk(t, timers[id], id, moves);
    var timer := timers[id].(link := None);
    ScheduleMoved(t, timer.end, moves[id]);
    LinkedUnlink(slots, timers, id, timer);
    var slots1 := slots[Under(t) := Without(At(slots, Under(t)), id)];
    LinkedPush(slots1, timers[id := timer], id, Scheduled(t, timer), PlaceOf(t, timer.end));
    ArmedUpdate(timers[id := timer], id, Scheduled(t, timer));
    ArmedUpdate(timers, id, timer);
  }

  /** Scheduling feeds the slot under the level-1 cursor exactly when the delay is a whole number of
      rounds; the driver's bound of less than one round rules that out. */
  lemma FeedsUnderIff(t: nat, end: nat)
    requires t <= end
    ensures PlaceOf(t, end) == Under(t) <==> end >= t + SIZE && Lap(end - t) % SIZE == 0
  {
  }

  const UNUSED: Timer := Timer(0, 0, false, Invalid, false, None)

  /** What `urpc_timer_create` makes of a timer from the pool. */
  function Created(t: Timer): Timer { t.(ticks := 0, status := Inited, magic := true, link := None) }

  /** Handing out a timer leaves the slot lists in order if and only if it is in none of them. */
  lemma CreateKeepsIff(slots: Slots, timers: map<Id, Timer>, id: Id)
    requires Linked(slots, timers) && id in timers
    ensures Linked(slots, timers[id := Created(timers[id])]) <==> timers[id].link.None?
  {
    var timers' := timers[id := Created(timers[id])];
    if timers[id].link.Some? {
      var loc := timers[id].link.value;
      assert id in At(slots, loc) && timers'[id].link == None;
    }
  }

  /** Scheduling a timer leaves the slot lists in order if and only if it is in none of them: the next
      round of a periodic timer does not look whether its callback has armed it already. */
  lemma ScheduleKeepsIff(slots: Slots, timers: map<Id, Timer>, id: Id, t: Timer, loc: Loc)
    requires Linked(slots, timers) && id in timers && t.link == Some(loc)
    ensures Linked(PushAt(slots, loc, id), timers[id := t]) <==> timers[id].link.None?
  {
    if timers[id].link.None? {
      LinkedPush(slots, timers, id, t, loc);
    } else {
      var from, slots' := timers[id].link.value, PushAt(slots, loc, id);
      assert id in At(slots, from) && from in slots';
      if from == loc {
        var l := At(slots, loc);
        var k :| 0 <= k < |l| && l[k] == id;
        assert slots'[loc][k] == slots'[loc][|l|] && !NoDup(slots'[loc]);
      } else {
        assert id in slots'[from] && timers[id := t][id].link != Some(from);
      }
    }
  }
}

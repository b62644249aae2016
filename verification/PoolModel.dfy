/** The element pool: which element is where.

    A container is an array of element addresses with a fill count.  It is a thread's cache, a filled
    container in the global list, or a spare one whose contents mean nothing. */
module PoolModel {
  import opened Words

  type Thread = nat
  type Cid = nat

  /** Element `i` of the memory block `block`. */
  datatype Elem = Elem(block: nat, i: nat)

  datatype Place = Held | Lost | In(c: Cid, p: nat)

  type Places = map<Elem, Place>
  type Containers = map<Cid, seq<Elem>>

  /** Every carved element has one place: with a caller, lost, or at one position of one container in
      use; and the containers in use hold nothing else. */
  ghost predicate Owned(perBlock: nat, blocks: nat, containers: Containers, active: set<Cid>, place: Places) {
    && (forall e :: e in place <==> e.block < blocks && e.i < perBlock)
    && (forall c :: c in active ==> c in containers && |containers[c]| <= perBlock)
    && (forall c, p :: c in active && 0 <= p < |containers[c]| ==>
          containers[c][p] in place && place[containers[c][p]] == In(c, p))
    && (forall e :: e in place && place[e].In? ==>
          place[e].c in active && place[e].p < |containers[place[e].c]| && containers[place[e].c][place[e].p] == e)
  }

  /** Nobody got or gave anything: elements only moved between containers, or were carved. */
  ghost predicate SameHands(before: Places, after: Places) {
    && before.Keys <= after.Keys
    && (forall x :: x in before ==> (before[x].Held? <==> after[x].Held?) && (before[x].Lost? <==> after[x].Lost?))
    && (forall x :: x in after && x !in before ==> after[x].In?)
  }

  /** `--free_num`. */
  lemma OwnedPop(perBlock: nat, blocks: nat, containers: Containers, active: set<Cid>, place: Places, c: Cid)
    requires Owned(perBlock, blocks, containers, active, place) && c in active && containers[c] != []
    ensures var e := containers[c][|containers[c]| - 1];
      && e in place && place[e].In?
      && Owned(perBlock, blocks, containers[c := containers[c][..|containers[c]| - 1]], active, place[e := Held])
  {
  }

  /** `free_num++`. */
  lemma OwnedPush(perBlock: nat, blocks: nat, containers: Containers, active: set<Cid>, place: Places, c: Cid, e: Elem)
    requires Owned(perBlock, blocks, containers, active, place) && c in active && |containers[c]| < perBlock
    requires e in place && place[e].Held?
    ensures Owned(perBlock, blocks, containers[c := containers[c] + [e]], active, place[e := In(c, |containers[c]|)])
  {
  }

  lemma OwnedLose(perBlock: nat, blocks: nat, containers: Containers, active: set<Cid>, place: Places, e: Elem)
    requires Owned(perBlock, blocks, containers, active, place) && e in place && place[e].Held?
    ensures Owned(perBlock, blocks, containers, active, place[e := Lost])
  {
  }

  ghost function Moved(place: Places, from: Cid, to: Cid): Places {
    map e | e in place :: if place[e].In? && place[e].c == from then In(to, place[e].p) else place[e]
  }

  lemma MovedHands(place: Places, from: Cid, to: Cid)
    ensures SameHands(place, Moved(place, from, to)) && Moved(place, from, to).Keys == place.Keys
  {
  }

  /** Copying a whole container into one that is empty or not in use, and giving up the source: it goes
      out of use, or is emptied. */
  lemma OwnedMove(perBlock: nat, blocks: nat, containers: Containers, active: set<Cid>, place: Places,
                  from: Cid, to: Cid, containers': Containers, active': set<Cid>)
    requires Owned(perBlock, blocks, containers, active, place)
    requires from in active && from != to && (to in active ==> containers[to] == [])
    requires (containers' == containers[to := containers[from]] && active' == active - {from} + {to})
          || (containers' == containers[to := containers[from]][from := []] && active' == active + {to})
    ensures Owned(perBlock, blocks, containers', active', Moved(place, from, to))
  {
  }

  ghost function Fresh(block: nat, perBlock: nat): (s: seq<Elem>)
    ensures |s| == perBlock && forall i :: 0 <= i < perBlock ==> s[i] == Elem(block, i)
  {
    seq(perBlock, i requires 0 <= i < perBlock => Elem(block, i))
  }

  ghost function Carved(place: Places, blocks: nat, perBlock: nat, c: Cid): Places {
    map e | e in place.Keys + (set x | x in Fresh(blocks, perBlock)) :: if e.block == blocks then In(c, e.i) else place[e]
  }

  lemma CarvedHands(place: Places, blocks: nat, perBlock: nat, c: Cid)
    requires forall e :: e in place ==> e.block < blocks
    ensures SameHands(place, Carved(place, blocks, perBlock, c))
  {
  }

  /** A new block, its elements all in container `c`. */
  lemma OwnedCarve(perBlock: nat, blocks: nat, containers: Containers, active: set<Cid>, place: Places, c: Cid)
    requires Owned(perBlock, blocks, containers, active, place) && c in active && containers[c] == []
    ensures Owned(perBlock, blocks + 1, containers[c := Fresh(blocks, perBlock)], active, Carved(place, blocks, perBlock, c))
  {
  }

  // -------------------------------------------------------------- which container is whose

  datatype Role = Cache(t: Thread) | Filled | Spare

  ghost predicate Listed(list: seq<Cid>, role: map<Cid, Role>, r: Role) {
    && NoDup(list)
    && (forall c :: c in list <==> c in role && role[c] == r)
  }

  /** Every container is the cache of exactly one thread or in exactly one of the two global lists. */
  ghost predicate Lists(caches: map<Thread, Cid>, filled: seq<Cid>, spare: seq<Cid>, role: map<Cid, Role>) {
    && (forall t :: t in caches ==> caches[t] in role && role[caches[t]] == Cache(t))
    && (forall c :: c in role && role[c].Cache? ==> role[c].t in caches && caches[role[c].t] == c)
    && Listed(filled, role, Filled) && Listed(spare, role, Spare)
  }

  ghost function Active(role: map<Cid, Role>): set<Cid> {
    set c | c in role && role[c] != Spare
  }

  lemma ListPush(list: seq<Cid>, role: map<Cid, Role>, r: Role, c: Cid)
    requires Listed(list, role, r) && c !in list
    ensures Listed([c] + list, role[c := r], r)
  {
  }

  lemma ListPop(list: seq<Cid>, role: map<Cid, Role>, r: Role, other: Role)
    requires Listed(list, role, r) && list != [] && other != r
    ensures list[0] in role && role[list[0]] == r && Listed(list[1..], role[list[0] := other], r)
  {
  }

  lemma ListOther(list: seq<Cid>, role: map<Cid, Role>, r: Role, c: Cid, other: Role)
    requires Listed(list, role, r) && c !in list && other != r
    ensures Listed(list, role[c := other], r)
  {
  }

  /** A container that is in neither global list becomes a filled or spare one. */
  lemma ListsLeave(caches: map<Thread, Cid>, filled: seq<Cid>, spare: seq<Cid>, role: map<Cid, Role>,
      t: Thread, r: Role)
    requires Lists(caches, filled, spare, role) && t in caches && r != Cache(t) && !r.Cache?
    ensures var c := caches[t];
      if r == Filled then Lists(caches - {t}, [c] + filled, spare, role[c := r]) && Active(role[c := r]) == Active(role)
      else Lists(caches - {t}, filled, [c] + spare, role[c := r]) && Active(role[c := r]) == Active(role) - {c}
  {
    var c := caches[t];
    if r == Filled {
      ListPush(filled, role, Filled, c);
      ListOther(spare, role, Spare, c, Filled);
    } else {
      ListPush(spare, role, Spare, c);
      ListOther(filled, role, Filled, c, Spare);
    }
    hide Listed;
  }

  lemma ListsCache(caches: map<Thread, Cid>, filled: seq<Cid>, spare: seq<Cid>, role: map<Cid, Role>, t: Thread, c: Cid)
    requires Lists(caches, filled, spare, role) && t !in caches && c !in role
    ensures Lists(caches[t := c], filled, spare, role[c := Cache(t)]) && Active(role[c := Cache(t)]) == Active(role) + {c}
  {
    ListOther(filled, role, Filled, c, Cache(t));
    ListOther(spare, role, Spare, c, Cache(t));
    hide Listed;
  }

  lemma ListsFill(caches: map<Thread, Cid>, filled: seq<Cid>, spare: seq<Cid>, role: map<Cid, Role>, b: Cid)
    requires Lists(caches, filled, spare, role)
    requires if spare != [] then b == spare[0] else b !in role
    ensures Lists(caches, [b] + filled, if spare != [] then spare[1..] else [], role[b := Filled])
    ensures Active(role[b := Filled]) == Active(role) + {b} && b !in Active(role) && (spare != [] ==> b in role)
  {
    if spare != [] {
      assert b in spare;
      ListPop(spare, role, Spare, Filled);
    } else {
      ListOther(spare, role, Spare, b, Filled);
    }
    ListPush(filled, role, Filled, b);
    hide Listed;
  }

  /** The first filled container becomes a spare one. */
  lemma ListsDrain(caches: map<Thread, Cid>, filled: seq<Cid>, spare: seq<Cid>, role: map<Cid, Role>)
    requires Lists(caches, filled, spare, role) && filled != []
    ensures var b := filled[0];
      && b in role && role[b] == Filled && b in Active(role)
      && Lists(caches, filled[1..], [b] + spare, role[b := Spare]) && Active(role[b := Spare]) == Active(role) - {b}
  {
    ListPop(filled, role, Filled, Spare);
    ListPush(spare, role, Spare, filled[0]);
    hide Listed;
  }

  // -------------------------------------------------------------- the whole pool

  datatype State = State(
    blocks: nat, containers: Containers, caches: map<Thread, Cid>, filled: seq<Cid>, spare: seq<Cid>,
    nextCid: Cid, role: map<Cid, Role>, place: Places)

  ghost predicate Inv(s: State, perBlock: nat) {
    && perBlock > 0
    && Lists(s.caches, s.filled, s.spare, s.role)
    && (forall c :: c in s.role ==> c < s.nextCid)
    && Owned(perBlock, s.blocks, s.containers, Active(s.role), s.place)
    && (forall c :: c in s.role && s.role[c] == Filled ==> c in s.containers && s.containers[c] != [])
  }

  lemma CacheActive(s: State, perBlock: nat, t: Thread)
    requires Inv(s, perBlock) && t in s.caches
    ensures s.caches[t] in s.containers && s.caches[t] in Active(s.role) && |s.containers[s.caches[t]]| <= perBlock
    ensures s.caches[t] in s.role && s.role[s.caches[t]] == Cache(t)
  {
  }

  lemma InvLocalInit(s: State, perBlock: nat, t: Thread)
    requires Inv(s, perBlock) && t !in s.caches
    ensures Inv(s.(containers := s.containers[s.nextCid := []], caches := s.caches[t := s.nextCid],
                   role := s.role[s.nextCid := Cache(t)], nextCid := s.nextCid + 1), perBlock)
  {
    ListsCache(s.caches, s.filled, s.spare, s.role, t, s.nextCid);
    hide Lists;
    hide Active;
  }

  lemma InvPop(s: State, perBlock: nat, t: Thread)
    requires Inv(s, perBlock) && t in s.caches && s.caches[t] in s.containers && s.containers[s.caches[t]] != []
    ensures var c := s.caches[t]; var n := |s.containers[c]| - 1;
      var e := s.containers[c][n];
      && e in s.place && s.place[e].In?
      && Inv(s.(containers := s.containers[c := s.containers[c][..n]], place := s.place[e := Held]), perBlock)
  {
    hide Listed;
    CacheActive(s, perBlock, t);
    OwnedPop(perBlock, s.blocks, s.containers, Active(s.role), s.place, s.caches[t]);
    hide Owned;
  }

  lemma InvPush(s: State, perBlock: nat, t: Thread, e: Elem)
    requires Inv(s, perBlock) && t in s.caches && s.caches[t] in s.containers && |s.containers[s.caches[t]]| < perBlock
    requires e in s.place && s.place[e] == Held
    ensures var c := s.caches[t];
      Inv(s.(containers := s.containers[c := s.containers[c] + [e]],
             place := s.place[e := In(c, |s.containers[c]|)]), perBlock)
  {
    hide Listed;
    CacheActive(s, perBlock, t);
    OwnedPush(perBlock, s.blocks, s.containers, Active(s.role), s.place, s.caches[t], e);
    hide Owned;
  }

  lemma InvLose(s: State, perBlock: nat, e: Elem)
    requires Inv(s, perBlock) && e in s.place && s.place[e] == Held
    ensures Inv(s.(place := s.place[e := Lost]), perBlock)
  {
    OwnedLose(perBlock, s.blocks, s.containers, Active(s.role), s.place, e);
    hide Owned;
    hide Lists;
  }

  lemma InvCarve(s: State, perBlock: nat, t: Thread)
    requires Inv(s, perBlock) && t in s.caches && s.caches[t] in s.containers && s.containers[s.caches[t]] == []
    ensures var c := s.caches[t];
      Inv(s.(blocks := s.blocks + 1, containers := s.containers[c := Fresh(s.blocks, perBlock)],
             place := Carved(s.place, s.blocks, perBlock, c)), perBlock)
    ensures forall e :: e in s.place ==> e.block < s.blocks
  {
    CacheActive(s, perBlock, t);
    OwnedCarve(perBlock, s.blocks, s.containers, Active(s.role), s.place, s.caches[t]);
    hide Lists;
    hide Carved;
  }

  ghost function Refilled(s: State, t: Thread): State
    requires t in s.caches && s.filled != [] && s.filled[0] in s.containers
  {
    var c, b := s.caches[t], s.filled[0];
    s.(filled := s.filled[1..], containers := s.containers[c := s.containers[b]], spare := [b] + s.spare,
       role := s.role[b := Spare], place := Moved(s.place, b, c))
  }

  lemma InvRefill(s: State, perBlock: nat, t: Thread)
    requires Inv(s, perBlock) && t in s.caches && s.caches[t] in s.containers && s.containers[s.caches[t]] == []
    requires s.filled != []
    ensures s.filled[0] in s.containers && s.containers[s.filled[0]] != [] && s.filled[0] != s.caches[t]
    ensures Inv(Refilled(s, t), perBlock)
  {
    var c, b := s.caches[t], s.filled[0];
    CacheActive(s, perBlock, t);
    ListsDrain(s.caches, s.filled, s.spare, s.role);
    hide Lists;
    hide Active;
    hide Moved;
    var role' := s.role[b := Spare];
    assert Active(role') == Active(s.role) - {b} + {c};
    OwnedMove(perBlock, s.blocks, s.containers, Active(s.role), s.place, b, c,
              s.containers[c := s.containers[b]], Active(role'));
    hide Owned;
  }

  ghost function Spilled(s: State, t: Thread, b: Cid): State
    requires t in s.caches && s.caches[t] in s.containers
  {
    var c := s.caches[t];
    s.(filled := [b] + s.filled, containers := s.containers[b := s.containers[c]][c := []],
       role := s.role[b := Filled], place := Moved(s.place, c, b))
  }

  /** Into the first spare container, or into a new one. */
  lemma InvSpill(s: State, perBlock: nat, t: Thread, b: Cid, spare': seq<Cid>, nextCid': Cid)
    requires Inv(s, perBlock) && t in s.caches && s.caches[t] in s.containers && s.containers[s.caches[t]] != []
    requires if s.spare != [] then b == s.spare[0] && spare' == s.spare[1..] && nextCid' == s.nextCid
             else b == s.nextCid && spare' == [] && nextCid' == s.nextCid + 1
    ensures b != s.caches[t] && Inv(Spilled(s, t, b).(spare := spare', nextCid := nextCid'), perBlock)
  {
    hide Lists;
    hide Active;
    hide Moved;
    hide Owned;
    var c := s.caches[t];
    CacheActive(s, perBlock, t);
    ListsFill(s.caches, s.filled, s.spare, s.role, b);
    var role' := s.role[b := Filled];
    var containers' := s.containers[b := s.containers[c]][c := []];
    OwnedMove(perBlock, s.blocks, s.containers, Active(s.role), s.place, c, b, containers', Active(role'));
    hide Owned;
  }

  ghost function Exited(s: State, t: Thread): State
    requires t in s.caches && s.caches[t] in s.containers
  {
    var c := s.caches[t];
    if s.containers[c] != [] then
      s.(filled := [c] + s.filled, role := s.role[c := Filled], caches := s.caches - {t})
    else
      s.(spare := [c] + s.spare, role := s.role[c := Spare], caches := s.caches - {t})
  }

  lemma InvExit(s: State, perBlock: nat, t: Thread)
    requires Inv(s, perBlock) && t in s.caches && s.caches[t] in s.containers
    ensures Inv(Exited(s, t), perBlock)
  {
    var c := s.caches[t];
    CacheActive(s, perBlock, t);
    ListsLeave(s.caches, s.filled, s.spare, s.role, t, if s.containers[c] != [] then Filled else Spare);
    hide Lists;
    hide Active;
  }
}

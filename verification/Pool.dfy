/** The thread-caching element pool: get, put and thread exit, in any order and by any thread. */
module Pool {
  import opened Words
  import opened PoolModel

  class Pool {
    const perBlock: nat
    const blockNum: nat
    var blocks: nat
    var containers: Containers
    var caches: map<Thread, Cid>
    var filled: seq<Cid>
    var spare: seq<Cid>
    var nextCid: Cid  // an address that no container has
    ghost var role: map<Cid, Role>
    ghost var place: Places

    ghost function Now(): State
      reads this
    {
      State(blocks, containers, caches, filled, spare, nextCid, role, place)
    }

    ghost predicate Valid()
      reads this
    {
      blocks <= blockNum && Inv(Now(), perBlock)
    }

    /** The cache of a thread, as a stack whose top is the last entry. */
    ghost function CacheOf(t: Thread): seq<Elem>
      reads this
    {
      if t in caches && caches[t] in containers then containers[caches[t]] else []
    }

    constructor (perBlock: nat, blockNum: nat)
      requires perBlock > 0
      ensures Valid() && place == map[] && caches == map[] && this.perBlock == perBlock && this.blockNum == blockNum
    {
      this.perBlock, this.blockNum := perBlock, blockNum;
      blocks, nextCid := 0, 0;
      containers, caches, filled, spare := map[], map[], [], [];
      role, place := map[], map[];
    }

    /** `urpc_pool_local_init`; `granted` says whether memory is to be had. */
    method LocalInit(t: Thread, granted: bool) returns (ok: bool)
      requires Valid()
      modifies this`containers, this`caches, this`role, this`nextCid
      ensures Valid() && ok == (t in caches) && (ok <==> t in old(caches) || granted) && CacheOf(t) == old(CacheOf(t))
    {
      hide Inv;
      if t in caches {
        return true;
      }
      if !granted {
        return false;
      }
      InvLocalInit(Now(), perBlock, t);
      role := role[nextCid := Cache(t)];
      containers, caches := containers[nextCid := []], caches[t := nextCid];
      nextCid := nextCid + 1;
      ok := true;
    }

    /** `urpc_pool_element_get`.  The element was in nobody's hands.  A thread with a non-empty cache gets
        the element it put last; a block is allocated only when nothing else helps.  It fails exactly when
        the memory it needs is not granted or the pool has all its blocks. */
    method Get(t: Thread, cacheGranted: bool, blockGranted: bool) returns (e: Option<Elem>)
      requires Valid()
      modifies this
      ensures Valid()
      ensures e.Some? <==> (
        && (t in old(caches) || cacheGranted)
        && (old(CacheOf(t)) != [] || old(filled) != [] || (old(blocks) < blockNum && blockGranted)))
      ensures e.None? ==> place == old(place)
      ensures e.Some? ==> e.value in place && place[e.value] == Held
      ensures e.Some? && e.value in old(place) ==> old(place)[e.value].In?
      ensures e.Some? ==> SameHands(old(place), place[e.value := In(0, 0)])
      ensures old(CacheOf(t)) != [] ==> e == Some(old(CacheOf(t))[|old(CacheOf(t))| - 1])
      ensures blocks == old(blocks) || (blocks == old(blocks) + 1 && old(CacheOf(t)) == [] && old(filled) == [])
    {
      hide Valid;
      var ok := LocalInit(t, cacheGranted);
      if !ok {
        return None;
      }
      var more := Supply(t, blockGranted);
      if !more {
        return None;
      }
      var v := Pop(t);
      e := Some(v);
    }

    /** Makes sure that the cache is not empty: from the global list, or with a new block. */
    method Supply(t: Thread, granted: bool) returns (ok: bool)
      requires Valid() && t in caches
      modifies this`blocks, this`containers, this`filled, this`spare, this`role, this`place
      ensures Valid() && t in caches && SameHands(old(place), place)
      ensures ok <==> CacheOf(t) != []
      ensures ok <==> old(CacheOf(t)) != [] || old(filled) != [] || (old(blocks) < blockNum && granted)
      ensures old(CacheOf(t)) != [] ==> CacheOf(t) == old(CacheOf(t))
      ensures !ok ==> place == old(place)
      ensures blocks == old(blocks) || (blocks == old(blocks) + 1 && old(CacheOf(t)) == [] && old(filled) == [])
    {
      hide Inv;
      CacheActive(Now(), perBlock, t);
      if containers[caches[t]] != [] {
        return true;
      }
      if filled != [] {
        Refill(t);
        return true;
      }
      if blocks >= blockNum {
        return false;
      }
      if !granted {
        return false;
      }
      Carve(t);
      ok := true;
    }

    method Pop(t: Thread) returns (e: Elem)
      requires Valid() && t in caches && CacheOf(t) != []
      modifies this`containers, this`place
      ensures Valid() && e == old(CacheOf(t))[|old(CacheOf(t))| - 1]
      ensures e in old(place) && old(place)[e].In? && place == old(place)[e := Held]
    {
      hide Inv;
      InvPop(Now(), perBlock, t);
      var c := caches[t];
      var n := |containers[c]| - 1;
      e := containers[c][n];
      containers := containers[c := containers[c][..n]];
      place := place[e := Held];
    }

    /** Takes over the first filled container; the container itself becomes a spare one. */
    method Refill(t: Thread)
      requires Valid() && t in caches && caches[t] in containers && containers[caches[t]] == [] && filled != []
      modifies this`containers, this`filled, this`spare, this`role, this`place
      ensures Valid() && CacheOf(t) != [] && SameHands(old(place), place)
    {
      hide Inv;
      hide SameHands;
      InvRefill(Now(), perBlock, t);
      ghost var next := Refilled(Now(), t);
      var c, b := caches[t], filled[0];
      MovedHands(place, b, c);
      filled := filled[1..];
      containers := containers[c := containers[b]];
      spare := [b] + spare;
      place, role := next.place, next.role;
      assert Now() == next;
    }

    method Carve(t: Thread)
      requires Valid() && t in caches && caches[t] in containers && containers[caches[t]] == [] && blocks < blockNum
      modifies this`containers, this`blocks, this`place
      ensures Valid() && CacheOf(t) != [] && blocks == old(blocks) + 1 && SameHands(old(place), place)
    {
      assert perBlock > 0;
      hide Inv;
      hide SameHands;
      hide Carved;
      var c := caches[t];
      InvCarve(Now(), perBlock, t);
      CarvedHands(place, blocks, perBlock, c);
      var data := NewBlock(blocks, perBlock);
      hide Fresh;
      place := Carved(place, blocks, perBlock, c);
      containers := containers[c := data];
      blocks := blocks + 1;
    }

    /** `urpc_pool_element_put` of an element that a caller holds.  It is lost exactly if memory that is
        needed is not granted, and then never handed out again. */
    method Put(t: Thread, e: Elem, cacheGranted: bool, containerGranted: bool) returns (ghost stored: bool)
      requires Valid() && e in place && place[e] == Held
      modifies this
      ensures Valid() && blocks == old(blocks) && e in place && SameHands(old(place), place[e := Held])
      ensures if stored then place[e].In? else place[e] == Lost
      ensures stored <==> (
        && (t in old(caches) || cacheGranted)
        && (|old(CacheOf(t))| < perBlock || old(spare) != [] || containerGranted))
      ensures stored ==> t in caches && CacheOf(t) != [] && CacheOf(t)[|CacheOf(t)| - 1] == e
      ensures |old(CacheOf(t))| < perBlock && t in old(caches) ==> stored && CacheOf(t) == old(CacheOf(t)) + [e]
    {
      hide Valid;
      var ok := LocalInit(t, cacheGranted);
      if !ok {
        Lose(e);
        return false;
      }
      var room := MakeRoom(t, containerGranted);
      if !room {
        Lose(e);
        return false;
      }
      Push(t, e);
      stored := true;
    }

    method Lose(e: Elem)
      requires Valid() && e in place && place[e] == Held
      modifies this`place
      ensures Valid() && place == old(place)[e := Lost]
    {
      hide Inv;
      InvLose(Now(), perBlock, e);
      place := place[e := Lost];
    }

    method Push(t: Thread, e: Elem)
      requires Valid() && t in caches && |CacheOf(t)| < perBlock && e in place && place[e] == Held
      modifies this`containers, this`place
      ensures Valid() && CacheOf(t) == old(CacheOf(t)) + [e]
      ensures e in place && place[e].In? && place == old(place)[e := place[e]]
    {
      hide Inv;
      CacheActive(Now(), perBlock, t);
      InvPush(Now(), perBlock, t, e);
      var c := caches[t];
      place := place[e := In(c, |containers[c]|)];
      containers := containers[c := containers[c] + [e]];
    }

    /** Moves a full cache into a spare or new container on the global list. */
    method MakeRoom(t: Thread, granted: bool) returns (ok: bool)
      requires Valid() && t in caches
      modifies this`containers, this`filled, this`spare, this`role, this`place, this`nextCid
      ensures Valid() && (ok ==> |CacheOf(t)| < perBlock) && SameHands(old(place), place) && place.Keys == old(place).Keys
      ensures ok <==> |old(CacheOf(t))| < perBlock || old(spare) != [] || granted
      ensures |old(CacheOf(t))| < perBlock ==> CacheOf(t) == old(CacheOf(t))
    {
      assert perBlock > 0;
      hide Inv;
      CacheActive(Now(), perBlock, t);
      if |containers[caches[t]]| < perBlock {
        return true;
      }
      if spare == [] && !granted {
        return false;
      }
      Spill(t);
      ok := true;
    }

    method Spill(t: Thread)
      requires Valid() && t in caches && caches[t] in containers && containers[caches[t]] != []
      modifies this`containers, this`filled, this`spare, this`role, this`place, this`nextCid
      ensures Valid() && CacheOf(t) == [] && SameHands(old(place), place) && place.Keys == old(place).Keys
    {
      hide Inv;
      hide SameHands;
      hide Moved;
      ghost var before := Now();
      var c, b := caches[t], nextCid;
      if spare != [] {
        b, spare := spare[0], spare[1..];
      } else {
        nextCid := nextCid + 1;
      }
      InvSpill(before, perBlock, t, b, spare, nextCid);
      MovedHands(place, c, b);
      ghost var next := Spilled(before, t, b);
      containers := containers[b := containers[c]][c := []];
      filled := [b] + filled;
      place, role := next.place, next.role;
    }

    /** The thread's cache goes to the global list; elements in callers' hands stay there. */
    method ThreadExit(t: Thread)
      requires Valid()
      modifies this`caches, this`filled, this`spare, this`role
      ensures Valid() && t !in caches
    {
      hide Inv;
      if t !in caches {
        return;
      }
      var c := caches[t];
      CacheActive(Now(), perBlock, t);
      InvExit(Now(), perBlock, t);
      ghost var next := Exited(Now(), t);
      if containers[c] != [] {
        filled := [c] + filled;
      } else {
        spare := [c] + spare;
      }
      caches := caches - {t};
      role := next.role;
    }
  }

  method NewBlock(block: nat, n: nat) returns (data: seq<Elem>)
    ensures data == Fresh(block, n)
  {
    data := [];
    for i := 0 to n
      invariant |data| == i && forall k :: 0 <= k < i ==> data[k] == Elem(block, k)
    {
      data := data + [Elem(block, i)];
    }
  }
}

/** The embedded slab: free objects are chained through their own first word. */
module Slab {
  import opened Words
  import opened BitWords

  const NIL: u32 := 0xFFFF_FFFF

  /** The object's number and its byte offset. */
  datatype Result = Ok(id: u32, offset: u32) | Enomem | Eperm

  /** `id * obj_size` in 32 bits. */
  function Offset(id: u32, objSize: u32): u32 { Wrap32(id * objSize) }

  /** The 32-bit offsets of all objects are right if and only if that of the last one is below 2^32. */
  lemma OffsetsExact(total: u32, objSize: u32)
    requires total > 0
    ensures (forall id :: 0 <= id < total ==> Offset(id, objSize) == id * objSize) <==> (total - 1) * objSize < M32
  {
    if (total - 1) * objSize < M32 {
      forall id | 0 <= id < total
        ensures Offset(id, objSize) == id * objSize
      {
        OffsetExact(id, total, objSize);
      }
    } else {
      assert Offset(total - 1, objSize) < M32;
    }
  }

  lemma OffsetExact(id: nat, total: u32, objSize: u32)
    requires id < total && (total - 1) * objSize < M32
    ensures id * objSize < M32 && Offset(id, objSize) == id * objSize
  {
    var d := total - 1 - id;
    assert (total - 1) * objSize == id * objSize + d * objSize;
    assert d * objSize >= 0;
    WrapSmall(id * objSize);
  }

  /** 65537 objects of 65536 bytes: the last one gets the offset of the first. */
  lemma OffsetWraps()
    ensures Offset(0x1_0000, 0x1_0000) == 0
  {
  }

  /** The object at a byte offset that is a multiple of the object size. */
  function ObjectAt(offset: nat, objSize: nat): nat
    requires objSize > 0
  {
    offset / objSize
  }

  lemma ObjectOf(id: nat, objSize: nat)
    requires objSize > 0
    ensures ObjectAt(id * objSize, objSize) == id
  {
    DivModUnique(id * objSize, id, 0, objSize);
  }

  /** The chain from position `k` on: the identifier there, or the end mark. */
  function ChainAt(chain: seq<u32>, k: nat): u32 {
    if k < |chain| then chain[k] else NIL
  }

  /** `chain` is what following the links from `first` visits: it has no cycle and ends in the end mark. */
  ghost predicate Chained(link: seq<u32>, first: u32, chain: seq<u32>) {
    && NoDup(chain) && first == ChainAt(chain, 0)
    && forall k :: 0 <= k < |chain| ==> chain[k] < |link| && link[chain[k]] == ChainAt(chain, k + 1)
  }

  /** Following the links determines the chain, so the set of free objects is well defined. */
  lemma {:induction false} ChainUnique(link: seq<u32>, first: u32, a: seq<u32>, b: seq<u32>)
    requires |link| < NIL && Chained(link, first, a) && Chained(link, first, b)
    ensures a == b
    decreases |a|
  {
    if a == [] || b == [] {
      assert a == [] ==> ChainAt(b, 0) == NIL;
      assert b == [] ==> ChainAt(a, 0) == NIL;
    } else {
      ChainTail(link, first, a);
      ChainTail(link, first, b);
      ChainUnique(link, ChainAt(a, 1), a[1..], b[1..]);
      assert a == [a[0]] + a[1..] && b == [b[0]] + b[1..];
    }
  }

  lemma ChainTail(link: seq<u32>, first: u32, chain: seq<u32>)
    requires Chained(link, first, chain) && chain != []
    ensures Chained(link, ChainAt(chain, 1), chain[1..]) && ChainAt(chain, 1) == link[first]
  {
  }

  /** Words of objects outside the chain do not matter. */
  lemma ChainFrame(link: seq<u32>, link': seq<u32>, first: u32, chain: seq<u32>, id: u32)
    requires Chained(link, first, chain) && id !in chain && id < |link| == |link'|
    requires forall i :: 0 <= i < |link| && i != id ==> link'[i] == link[i]
    ensures Chained(link', first, chain)
  {
  }

  lemma ChainPush(link: seq<u32>, first: u32, chain: seq<u32>, id: u32)
    requires Chained(link, first, chain) && id !in chain && id < |link|
    ensures Chained(link[id := first], id, [id] + chain)
  {
  }

  class Slab {
    const total: u32
    const objSize: u32
    const link: array<u32>  // the first word of every object
    var nextFree: u32
    ghost var chain: seq<u32>

    /** Every object's offset fits 32 bits. */
    ghost predicate Shape() {
      0 < total < NIL && link.Length == total && objSize > 0 && (total - 1) * objSize < M32
    }

    ghost predicate Valid()
      reads this, link
    {
      Shape() && Chained(link[..], nextFree, chain)
    }

    constructor (total: u32, objSize: u32)
      requires 0 < total < NIL && objSize > 0 && (total - 1) * objSize < M32
      ensures Valid() && fresh(link) && this.total == total && this.objSize == objSize && |chain| == total
      ensures forall i :: 0 <= i < total ==> chain[i] == i
    {
      this.total, this.objSize := total, objSize;
      link := new u32[total];
      nextFree := 0;
      chain := seq(total, i requires 0 <= i < total => i);
      new;
      for i := 0 to total - 1
        modifies link
        invariant forall k :: 0 <= k < i ==> link[k] == k + 1
      {
        link[i] := i + 1;
      }
      link[total - 1] := NIL;
    }

    /** Reads the first word of object `id` through its 32-bit offset. */
    method ReadLink(id: u32) returns (offset: u32, next: u32)
      requires Shape() && id < total
      ensures offset == id * objSize && next == link[id]
    {
      OffsetExact(id, total, objSize);
      ObjectOf(id, objSize);
      offset := Offset(id, objSize);
      next := link[ObjectAt(offset, objSize)];
    }

    /** `eslab_alloc`.  On a chain that nobody has overwritten it returns a free object and fails only
        when there is none; on any memory it never leaves the object array. */
    method Alloc() returns (r: Result)
      requires Shape()
      modifies this`nextFree, this`chain
      ensures old(Valid()) ==> Valid() && r != Eperm && (r == Enomem <==> old(chain) == [])
      ensures old(Valid()) && r.Ok? ==> old(chain) == [r.id] + chain && r.id !in chain
      ensures old(Valid()) && !r.Ok? ==> chain == old(chain)
      ensures r.Ok? ==> r.id < total && r.offset == r.id * objSize && (nextFree < total || nextFree == NIL)
    {
      if nextFree == NIL {
        return Enomem;
      }
      if nextFree >= total {
        return Eperm;
      }
      ghost var valid := Valid();
      if valid {
        ChainTail(link[..], nextFree, chain);
      }
      var id := nextFree;
      var offset, next := ReadLink(id);
      nextFree := next;
      if nextFree >= total && nextFree != NIL {
        return Eperm;
      }
      if valid {
        chain := chain[1..];
      }
      return Ok(id, offset);
    }

    /** `eslab_free` of an object in use. */
    method Free(id: u32)
      requires Valid() && id < total && id !in chain
      modifies this`nextFree, this`chain, link
      ensures Valid() && chain == [id] + old(chain)
    {
      ChainPush(link[..], nextFree, chain, id);
      ghost var words := link[..];
      link[id] := nextFree;
      assert link[..] == words[id := nextFree];
      nextFree := id;
      chain := [id] + chain;
    }

    /** The owner of an object in use may write its first word. */
    method UserWrite(id: u32, v: u32)
      requires Valid() && id < total && id !in chain
      modifies link
      ensures Valid()
    {
      ghost var words := link[..];
      link[id] := v;
      ChainFrame(words, link[..], nextFree, chain, id);
    }

    /** The object in use with the least number; none if all are free.  On a corrupt chain the search
        still ends. */
    method FirstUsed() returns (r: Option<u32>)
      requires Shape()
      ensures Valid() ==> (r.None? <==> forall i :: 0 <= i < total ==> i in chain)
      ensures Valid() && r.Some? ==> r.value < total && r.value !in chain && forall i :: 0 <= i < r.value ==> i in chain
    {
      var clean, idle := MarkIdle();
      if !clean {
        return None;
      }
      for i := 0 to total
        invariant forall k :: 0 <= k < i ==> idle[k]
      {
        if !idle[i] {
          return Some(i);
        }
      }
      return None;
    }

    /** Marks the chained objects; stops at a cycle. */
    method MarkIdle() returns (clean: bool, idle: seq<bool>)
      requires Shape()
      ensures |idle| == total && (Valid() ==> clean && forall i :: 0 <= i < total ==> (idle[i] <==> i in chain))
    {
      idle := seq(total, _ => false);
      var next: u32 := nextFree;
      ghost var n: nat := 0;
      ghost var marked: set<nat> := {};
      hide Below;
      hide Chained;
      hide Marks;
      NoMarks(idle, chain);
      assert Valid() ==> next == ChainAt(chain, 0) by { ChainStart(link[..], nextFree, chain); }
      while next != NIL && next < total
        invariant |idle| == total && marked <= Below(total)
        invariant forall i :: 0 <= i < total ==> (idle[i] <==> i in marked)
        invariant Valid() ==> n <= |chain| && next == ChainAt(chain, n) && Marks(idle, chain, n)
        decreases total - |marked|
      {
        if Valid() {
          MarkStep(link[..], nextFree, idle, chain, n);
        }
        if idle[next] {
          return false, idle;
        }
        Bounded(marked, next, total);
        idle := idle[next := true];
        marked := marked + {next as nat};
        var _, after := ReadLink(next);
        next := after;
        n := n + 1;
      }
      if Valid() {
        MarksAll(link[..], nextFree, idle, chain, n);
      }
      clean := true;
    }
  }

  /** The marked objects are the first `n` of the chain. */
  ghost predicate Marks(idle: seq<bool>, chain: seq<u32>, n: nat)
    requires n <= |chain|
  {
    forall i :: 0 <= i < |idle| ==> (idle[i] <==> i in chain[..n])
  }

  lemma NoMarks(idle: seq<bool>, chain: seq<u32>)
    requires forall i :: 0 <= i < |idle| ==> !idle[i]
    ensures Marks(idle, chain, 0)
  {
  }

  lemma ChainStart(link: seq<u32>, first: u32, chain: seq<u32>)
    ensures Chained(link, first, chain) ==> first == ChainAt(chain, 0)
  {
  }

  lemma MarkStep(link: seq<u32>, first: u32, idle: seq<bool>, chain: seq<u32>, n: nat)
    requires Chained(link, first, chain) && |idle| == |link| < NIL && n <= |chain| && Marks(idle, chain, n)
    requires ChainAt(chain, n) != NIL
    ensures n < |chain| && chain[n] < |idle| && !idle[chain[n]] && link[chain[n]] == ChainAt(chain, n + 1)
    ensures Marks(idle[chain[n] := true], chain, n + 1)
  {
  }

  lemma MarksAll(link: seq<u32>, first: u32, idle: seq<bool>, chain: seq<u32>, n: nat)
    requires Chained(link, first, chain) && |idle| == |link| < NIL && n <= |chain| && Marks(idle, chain, n)
    requires ChainAt(chain, n) == NIL || ChainAt(chain, n) >= |link|
    ensures forall i :: 0 <= i < |idle| ==> (idle[i] <==> i in chain)
  {
  }

  lemma Bounded(s: set<nat>, x: nat, n: nat)
    requires s <= Below(n) && x < n && x !in s
    ensures s + {x} <= Below(n) && |s + {x}| <= n
  {
    BelowIs(n);
    Smaller(s + {x}, Below(n));
  }
}

// Storage for objects: slots that are raw, constructed, or moved from, and buffers of
// slots that are allocated and freed.
module Memory {

  datatype Slot<T> = Raw | Moved | Live(value: T)

  const SIZE_MAX: nat := 0xffff_ffff_ffff_ffff

  ghost predicate RawIn<T>(b: array<Slot<T>>, lo: nat, hi: nat)
    requires lo <= hi <= b.Length
    reads b
  {
    forall k :: lo <= k < hi ==> b[k] == Raw
  }

  ghost predicate ConstructedIn<T>(b: array<Slot<T>>, lo: nat, hi: nat)
    requires lo <= hi <= b.Length
    reads b
  {
    forall k :: lo <= k < hi ==> b[k] != Raw
  }

  // The slots from lo on hold exactly the values of c.
  ghost predicate HoldsAt<T>(b: array<Slot<T>>, lo: nat, c: seq<T>)
    requires lo + |c| <= b.Length
    reads b
  {
    forall k :: lo <= k < lo + |c| ==> b[k] == Live(c[k - lo])
  }

  // The allocator. A buffer can be freed only while it is allocated, and only when every
  // object in it has been destroyed.
  class Heap<T(0)> {
    ghost var live: set<array<Slot<T>>>

    constructor ()
      ensures live == {}
    {
      live := {};
    }

    method Malloc(n: nat) returns (b: array<Slot<T>>)
      modifies this
      ensures fresh(b) && b.Length == n && RawIn(b, 0, b.Length)
      ensures b !in old(live) && live == old(live) + {b}
    {
      b := new Slot<T>[n](_ => Raw);
      live := live + {b};
    }

    method Free(b: array<Slot<T>>)
      requires b in live && RawIn(b, 0, b.Length)
      modifies this
      ensures live == old(live) - {b}
    {
      live := live - {b};
    }
  }
}

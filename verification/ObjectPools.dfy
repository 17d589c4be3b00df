// A pool that hands out objects from blocks of doubling size.
module ObjectPools {
  import opened Arithmetic
  import opened Sets
  import opened Memory

  // Slot `index` of block number `block`.
  datatype Pointer = Pointer(block: nat, index: nat)

  function BlockSize(start: nat, k: nat): (n: nat)
    ensures start > 0 ==> n > 0
  {
    if k == 0 then start else 2 * BlockSize(start, k - 1)
  }

  ghost function BlockPointers(k: nat, n: nat): set<Pointer> {
    set i | 0 <= i < n :: Pointer(k, i)
  }

  // All slots of the first k blocks.
  ghost function AllPointers(start: nat, k: nat): set<Pointer> {
    if k == 0 then {} else AllPointers(start, k - 1) + BlockPointers(k - 1, BlockSize(start, k - 1))
  }

  lemma {:induction false} InPool(start: nat, k: nat, p: Pointer)
    ensures p in AllPointers(start, k) <==> p.block < k && p.index < BlockSize(start, p.block)
  {
    if k > 0 {
      InPool(start, k - 1, p);
    }
  }

  lemma {:induction false} BlockCount(k: nat, n: nat)
    ensures |BlockPointers(k, n)| == n
  {
    if n > 0 {
      BlockCount(k, n - 1);
      assert BlockPointers(k, n) == BlockPointers(k, n - 1) + {Pointer(k, n - 1)};
    } else {
      assert BlockPointers(k, n) == {};
    }
  }

  lemma BlockIsNew(start: nat, k: nat, n: nat)
    ensures AllPointers(start, k) !! BlockPointers(k, n)
    ensures |AllPointers(start, k) + BlockPointers(k, n)| == |AllPointers(start, k)| + |BlockPointers(k, n)|
  {
    hide AllPointers;
    forall p | p in AllPointers(start, k) ensures p !in BlockPointers(k, n) {
      InPool(start, k, p);
    }
  }

  lemma NextBlock(start: nat, k: nat)
    ensures AllPointers(start, k) ==
            if k == 0 then {} else AllPointers(start, k - 1) + BlockPointers(k - 1, BlockSize(start, k - 1))
  {}

  // k blocks have start * (2^k - 1) slots: one block size short of the next block.
  lemma {:induction false} PoolCount(start: nat, k: nat)
    ensures |AllPointers(start, k)| == BlockSize(start, k) - start
  {
    hide AllPointers, BlockPointers;
    NextBlock(start, k);
    if k > 0 {
      PoolCount(start, k - 1);
      BlockCount(k - 1, BlockSize(start, k - 1));
      BlockIsNew(start, k - 1, BlockSize(start, k - 1));
    }
  }

  lemma {:induction false} BlockSizeIsShift(start: nat, k: nat)
    ensures BlockSize(start, k) == start * Pow2(k)
  {
    if k > 0 {
      BlockSizeIsShift(start, k - 1);
    }
  }

  // Vacant and live slots are disjoint and together are all slots.
  ghost predicate Accounted(vacants: seq<Pointer>, live: set<Pointer>, all: set<Pointer>) {
    Distinct(vacants) && Elements(vacants) + live == all && Elements(vacants) !! live
  }

  class ObjectPool<T(0)> {
    const startObjectCount: nat
    var vacants: seq<Pointer>
    var memory: seq<array<Slot<T>>>
    // The objects handed out and not yet returned.
    ghost var live: map<Pointer, T>

    ghost predicate BlocksOk()
      reads this
    {
      && startObjectCount > 0
      && (forall k :: 0 <= k < |memory| ==> memory[k].Length == BlockSize(startObjectCount, k))
      && (forall j, k :: 0 <= j < k < |memory| ==> memory[j] != memory[k])
    }

    ghost predicate Covers(p: Pointer)
      reads this
    {
      p.block < |memory| && p.index < memory[p.block].Length
    }

    ghost function At(p: Pointer): Slot<T>
      requires Covers(p)
      reads this, memory
    {
      memory[p.block][p.index]
    }

    ghost predicate VacantAreRaw()
      reads this, memory
    {
      forall p :: p in vacants ==> Covers(p) && At(p) == Raw
    }

    ghost predicate LiveAreHeld()
      reads this, memory
    {
      forall p :: p in live ==> Covers(p) && At(p) == Live(live[p])
    }

    ghost predicate Valid()
      reads this, memory
    {
      && BlocksOk() && VacantAreRaw() && LiveAreHeld()
      && Accounted(vacants, live.Keys, AllPointers(startObjectCount, |memory|))
    }

    constructor (startObjectCount: nat)
      requires startObjectCount > 0
      ensures Valid() && live == map[] && memory == [] && this.startObjectCount == startObjectCount
    {
      this.startObjectCount := startObjectCount;
      vacants, memory, live := [], [], map[];
    }

    method Allocate(value: T) returns (p: Pointer)
      requires Valid() && (vacants == [] ==> BlockSize(startObjectCount, |memory|) < UINT_LIMIT)
      modifies this, memory
      ensures Valid() && p !in old(live) && live == old(live)[p := value]
      ensures fresh(set b | b in memory && b !in old(memory))
      ensures old(memory) <= memory
    {
      hide Elements, AllPointers, Distinct;
      if vacants == [] {
        Grow();
      }
      p := TakeVacant(value);
    }

    // Construct an object in the slot that was vacated last.
    method TakeVacant(value: T) returns (p: Pointer)
      requires Valid() && vacants != []
      modifies `vacants, `live, memory
      ensures Valid() && p == old(vacants)[|old(vacants)| - 1] && p !in old(live) && live == old(live)[p := value]
    {
      hide Elements, AllPointers, Accounted, Distinct;
      p := vacants[|vacants| - 1];
      ghost var rest := vacants[..|vacants| - 1];
      TakenAccounted(vacants, live.Keys, AllPointers(startObjectCount, |memory|));
      assert live[p := value].Keys == live.Keys + {p};
      assert p in vacants;
      assert Covers(p) && memory[p.block][p.index] == Raw;
      forall x | x in rest ensures x != p && Covers(x) && memory[x.block][x.index] == Raw {
        assert x in vacants;
      }
      vacants := vacants[..|vacants| - 1];
      live := live[p := value];
      Store(p, value);
    }

    method Store(p: Pointer, value: T)
      requires BlocksOk() && Covers(p) && At(p) == Raw
      modifies memory
      ensures Covers(p) && At(p) == Live(value)
      ensures forall x :: x != p && Covers(x) ==> At(x) == old(At(x))
    {
      assert memory[p.block][p.index].Raw?;
      memory[p.block][p.index] := Live(value);
    }

    // A new block, twice as large as the one before.
    method Grow()
      requires Valid() && vacants == [] && BlockSize(startObjectCount, |memory|) < UINT_LIMIT
      modifies this
      ensures Valid() && vacants != [] && live == old(live) && |memory| == |old(memory)| + 1
      ensures old(memory) <= memory && fresh(memory[|memory| - 1])
    {
      hide Elements, AllPointers, BlockPointers, Distinct, Accounted;
      var k := |memory|;
      var count := BlockSize(startObjectCount, k);
      var b := new Slot<T>[count](_ => Raw);
      for i := 0 to count
        invariant |vacants| == i && memory == old(memory) && live == old(live)
        invariant forall j :: 0 <= j < i ==> vacants[j] == Pointer(k, j)
        invariant RawIn(b, 0, count)
      {
        vacants := vacants + [Pointer(k, i)];
      }
      BlockAccounted(startObjectCount, k, vacants, live.Keys);
      memory := memory + [b];
    }

    // Give an object back; it must be one that was handed out.
    method Free(p: Pointer)
      requires Valid() && p in live
      modifies this, memory
      ensures Valid() && live == old(live) - {p} && memory == old(memory)
      ensures vacants == old(vacants) + [p]
    {
      hide AllPointers, Elements, Accounted, Distinct;
      ReturnedAccounted(vacants, live.Keys, AllPointers(startObjectCount, |memory|), p);
      assert !memory[p.block][p.index].Raw?;
      memory[p.block][p.index] := Raw;
      assert (live - {p}).Keys == live.Keys - {p};
      vacants := vacants + [p];
      live := live - {p};
    }

    // Conservation: the number of vacant and live slots depends only on the number of
    // blocks.
    lemma SlotsConserved()
      requires Valid()
      ensures |vacants| + |live| == startObjectCount * (Pow2(|memory|) - 1)
    {
      hide AllPointers, Elements, Distinct;
      DistinctCount(vacants);
      PoolCount(startObjectCount, |memory|);
      BlockSizeIsShift(startObjectCount, |memory|);
      MulMinusOne(startObjectCount, Pow2(|memory|));
      UnionCount(Elements(vacants), live);
    }
  }

  lemma MulMinusOne(a: nat, b: nat)
    ensures a * (b - 1) == a * b - a
  {}

  lemma UnionCount<T>(s: set<Pointer>, m: map<Pointer, T>)
    requires s !! m.Keys
    ensures |s + m.Keys| == |s| + |m|
  {}

  // With every old slot live, a new block of vacant slots keeps the account.
  lemma BlockAccounted(start: nat, k: nat, vacants: seq<Pointer>, live: set<Pointer>)
    requires Accounted([], live, AllPointers(start, k))
    requires |vacants| == BlockSize(start, k) && forall j :: 0 <= j < |vacants| ==> vacants[j] == Pointer(k, j)
    ensures Accounted(vacants, live, AllPointers(start, k + 1))
    ensures forall p :: p in vacants ==> p.block == k && p.index < |vacants|
  {
    hide AllPointers;
    BlockIsNew(start, k, |vacants|);
    NextBlock(start, k + 1);
    assert Elements(vacants) == BlockPointers(k, |vacants|);
    assert live == AllPointers(start, k);
  }

  lemma TakenAccounted(vacants: seq<Pointer>, live: set<Pointer>, all: set<Pointer>)
    requires vacants != [] && Accounted(vacants, live, all)
    ensures var p := vacants[|vacants| - 1];
            && Accounted(vacants[..|vacants| - 1], live + {p}, all) && p !in live
            && p !in vacants[..|vacants| - 1] && forall x :: x in vacants[..|vacants| - 1] ==> x in vacants
  {}

  lemma ReturnedAccounted(vacants: seq<Pointer>, live: set<Pointer>, all: set<Pointer>, p: Pointer)
    requires Accounted(vacants, live, all) && p in live
    ensures Accounted(vacants + [p], live - {p}, all)
  {}
}

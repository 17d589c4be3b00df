// A vector with room for a few elements inside the object itself.
module SmallVectors {
  import opened Arithmetic
  import opened Memory

  // ---- The loops over slots ----

  // Move an object to a raw slot of the same buffer.
  method MoveConstruct<T>(b: array<Slot<T>>, from: nat, to: nat)
    requires from < b.Length && to < b.Length && b[from].Live? && b[to].Raw?
    modifies b
    ensures b[to] == old(b[from]) && b[from] == Moved
    ensures forall k :: 0 <= k < b.Length && k != from && k != to ==> b[k] == old(b[k])
  {
    b[to] := b[from];
    b[from] := Moved;
  }

  // Move an object to a slot that holds one. Assigning an object to itself is taken to
  // keep it.
  method MoveAssign<T>(b: array<Slot<T>>, from: nat, to: nat)
    requires from < b.Length && to < b.Length && b[from].Live? && !b[to].Raw?
    modifies b
    ensures b[to] == old(b[from]) && (from != to ==> b[from] == Moved)
    ensures forall k :: 0 <= k < b.Length && k != from && k != to ==> b[k] == old(b[k])
  {
    var moved := b[from];
    b[from] := Moved;
    b[to] := moved;
  }

  // Move-construct the objects from slot `at` on in another buffer, and destroy them.
  method Relocate<T>(from: array<Slot<T>>, at: nat, n: nat, to: array<Slot<T>>, dest: nat, ghost c: seq<T>)
    requires from != to && n == |c| && at + n <= from.Length && dest + n <= to.Length
    requires HoldsAt(from, at, c) && RawIn(to, dest, dest + n)
    modifies from, to
    ensures RawIn(from, at, at + n) && HoldsAt(to, dest, c)
    ensures forall k :: 0 <= k < from.Length && !(at <= k < at + n) ==> from[k] == old(from[k])
    ensures forall k :: 0 <= k < to.Length && !(dest <= k < dest + n) ==> to[k] == old(to[k])
  {
    for i := 0 to n
      invariant RawIn(from, at, at + i)
      invariant forall k :: at + i <= k < at + n ==> from[k] == Live(c[k - at])
      invariant forall k :: dest <= k < dest + i ==> to[k] == Live(c[k - dest])
      invariant RawIn(to, dest + i, dest + n)
      invariant forall k :: 0 <= k < from.Length && !(at <= k < at + n) ==> from[k] == old(from[k])
      invariant forall k :: 0 <= k < to.Length && !(dest <= k < dest + n) ==> to[k] == old(to[k])
    {
      assert to[dest + i].Raw? && from[at + i].Live?;
      to[dest + i] := from[at + i];
      from[at + i] := Moved;
      assert !from[at + i].Raw?;
      from[at + i] := Raw;
    }
  }

  // Copy-construct values in raw slots.
  method CopyConstruct<T>(to: array<Slot<T>>, dest: nat, values: seq<T>)
    requires dest + |values| <= to.Length && RawIn(to, dest, dest + |values|)
    modifies to
    ensures HoldsAt(to, dest, values)
    ensures forall k :: 0 <= k < to.Length && !(dest <= k < dest + |values|) ==> to[k] == old(to[k])
  {
    for i := 0 to |values|
      invariant forall k :: dest <= k < dest + i ==> to[k] == Live(values[k - dest])
      invariant RawIn(to, dest + i, dest + |values|)
      invariant forall k :: 0 <= k < to.Length && !(dest <= k < dest + |values|) ==> to[k] == old(to[k])
    {
      assert to[dest + i].Raw?;
      to[dest + i] := Live(values[i]);
    }
  }

  // Copy-construct the first n objects of one buffer in another.
  method CopyObjects<T>(from: array<Slot<T>>, n: nat, to: array<Slot<T>>, ghost c: seq<T>)
    requires from != to && n == |c| <= from.Length && n <= to.Length
    requires HoldsAt(from, 0, c) && RawIn(to, 0, n)
    modifies to
    ensures HoldsAt(to, 0, c)
    ensures forall k :: n <= k < to.Length ==> to[k] == old(to[k])
  {
    for i := 0 to n
      invariant forall k :: 0 <= k < i ==> to[k] == Live(c[k])
      invariant RawIn(to, i, n)
      invariant forall k :: n <= k < to.Length ==> to[k] == old(to[k])
    {
      assert to[i].Raw? && from[i].Live?;
      to[i] := from[i];
    }
  }

  method DestroyRange<T>(b: array<Slot<T>>, lo: nat, hi: nat)
    requires lo <= hi <= b.Length && ConstructedIn(b, lo, hi)
    modifies b
    ensures RawIn(b, lo, hi)
    ensures forall k :: 0 <= k < b.Length && !(lo <= k < hi) ==> b[k] == old(b[k])
  {
    for i := lo to hi
      invariant RawIn(b, lo, i) && ConstructedIn(b, i, hi)
      invariant forall k :: 0 <= k < b.Length && !(lo <= k < hi) ==> b[k] == old(b[k])
    {
      assert !b[i].Raw?;
      b[i] := Raw;
    }
  }

  // Move n objects to a new buffer, with new values constructed between them at pos.
  method RelocateAround<T>(from: array<Slot<T>>, n: nat, pos: nat, values: seq<T>, to: array<Slot<T>>, ghost c: seq<T>)
    requires from != to && pos <= n == |c| <= from.Length && n + |values| <= to.Length
    requires HoldsAt(from, 0, c) && RawIn(to, 0, to.Length)
    modifies from, to
    ensures RawIn(from, 0, n) && forall k :: n <= k < from.Length ==> from[k] == old(from[k])
    ensures HoldsAt(to, 0, c[..pos] + values + c[pos..]) && RawIn(to, n + |values|, to.Length)
  {
    Relocate(from, 0, pos, to, 0, c[..pos]);
    CopyConstruct(to, pos, values);
    Relocate(from, pos, n - pos, to, pos + |values|, c[pos..]);
  }

  // The slots from pos on, as far as the elements from `source` on have been moved up.
  ghost predicate TailMoved<T>(b: array<Slot<T>>, size: nat, source: nat, count: nat, c: seq<T>)
    requires source <= size == |c| && size + count <= b.Length
    reads b
  {
    && (forall k {:trigger c[k]} :: 0 <= k < source ==> b[k] == Live(c[k]))
    && (forall k {:trigger c[k]} :: source <= k < size ==> b[k + count] == Live(c[k]))
    && (forall k :: size + count <= k < b.Length ==> b[k] == Raw)
  }

  // The tail is move-constructed in raw slots as long as there are any.
  method ConstructTail<T>(b: array<Slot<T>>, size: nat, pos: nat, count: nat, ghost c: seq<T>) returns (source: nat)
    requires pos < size == |c| && size + count <= b.Length
    requires HoldsAt(b, 0, c) && RawIn(b, size, b.Length)
    modifies b
    ensures pos <= source <= size <= source + count && (source == pos || source + count == size)
    ensures TailMoved(b, size, source, count, c)
    ensures ConstructedIn(b, source, size) && RawIn(b, size, source + count)
  {
    source := size;
    while source + count != size && source != pos
      invariant pos <= source <= size <= source + count
      invariant TailMoved(b, size, source, count, c)
      invariant ConstructedIn(b, source, size) && RawIn(b, size, source + count)
      decreases source
    {
      source := source - 1;
      assert b[source] == Live(c[source]);
      MoveConstruct(b, source, source + count);
    }
  }

  // The rest of it is move-assigned to slots that hold objects.
  method AssignTail<T>(b: array<Slot<T>>, size: nat, pos: nat, count: nat, from: nat, ghost c: seq<T>)
    requires pos <= from <= size == |c| && size + count <= b.Length
    requires from != pos ==> from + count == size
    requires TailMoved(b, size, from, count, c) && ConstructedIn(b, from, size)
    modifies b
    ensures TailMoved(b, size, pos, count, c) && ConstructedIn(b, pos, size)
    ensures from == pos ==> b[..] == old(b[..])
  {
    var source := from;
    while source != pos
      invariant pos <= source <= from
      invariant source == from ==> b[..] == old(b[..])
      invariant TailMoved(b, size, source, count, c) && ConstructedIn(b, source, size)
      decreases source
    {
      source := source - 1;
      assert b[source] == Live(c[source]);
      MoveAssign(b, source, source + count);
    }
  }

  // Move the elements from pos on up by `count` slots.
  method MoveTailUp<T>(b: array<Slot<T>>, size: nat, pos: nat, count: nat, ghost c: seq<T>)
    requires pos < size == |c| && size + count <= b.Length
    requires HoldsAt(b, 0, c) && RawIn(b, size, b.Length)
    modifies b
    ensures HoldsAt(b, 0, c[..pos]) && HoldsAt(b, pos + count, c[pos..])
    ensures ConstructedIn(b, pos, size)
    ensures pos + count >= size ==> RawIn(b, size, pos + count)
    ensures RawIn(b, size + count, b.Length)
  {
    var source := ConstructTail(b, size, pos, count, c);
    AssignTail(b, size, pos, count, source, c);
  }

  // Put new elements in a gap whose first slots hold objects and whose others are raw.
  method FillGap<T>(b: array<Slot<T>>, size: nat, pos: nat, values: seq<T>)
    requires pos <= size && size <= b.Length && pos + |values| <= b.Length
    requires ConstructedIn(b, pos, size)
    requires pos + |values| >= size ==> RawIn(b, size, pos + |values|)
    modifies b
    ensures HoldsAt(b, pos, values)
    ensures forall k :: 0 <= k < b.Length && !(pos <= k < pos + |values|) ==> b[k] == old(b[k])
  {
    var i := 0;
    while pos + i != size && i != |values|
      invariant i <= |values| && pos + i <= size
      invariant forall k :: pos <= k < pos + i ==> b[k] == Live(values[k - pos])
      invariant ConstructedIn(b, pos + i, size)
      invariant pos + |values| >= size ==> RawIn(b, size, pos + |values|)
      invariant forall k :: 0 <= k < b.Length && !(pos <= k < pos + |values|) ==> b[k] == old(b[k])
      decreases |values| - i
    {
      assert !b[pos + i].Raw?;
      b[pos + i] := Live(values[i]);
      i := i + 1;
    }
    while i != |values|
      invariant i <= |values| && (i != |values| ==> pos + i >= size)
      invariant forall k :: pos <= k < pos + i ==> b[k] == Live(values[k - pos])
      invariant RawIn(b, pos + i, pos + |values|)
      invariant forall k :: 0 <= k < b.Length && !(pos <= k < pos + |values|) ==> b[k] == old(b[k])
      decreases |values| - i
    {
      assert b[pos + i].Raw?;
      b[pos + i] := Live(values[i]);
      i := i + 1;
    }
  }

  // The elements from hi to i have moved down to lo.
  ghost predicate MovingDown<T>(b: array<Slot<T>>, lo: nat, hi: nat, i: nat, c: seq<T>)
    requires lo <= hi <= i <= |c| <= b.Length
    reads b
  {
    && (forall k {:trigger c[k]} :: 0 <= k < lo ==> b[k] == Live(c[k]))
    && (forall k {:trigger c[k]} :: hi <= k < i ==> b[k - (hi - lo)] == Live(c[k]))
    && (forall k {:trigger c[k]} :: i <= k < |c| ==> b[k] == Live(c[k]))
    && ConstructedIn(b, i - (hi - lo), i)
  }

  lemma MovedDownHolds<T>(b: array<Slot<T>>, lo: nat, hi: nat, c: seq<T>)
    requires lo <= hi <= |c| <= b.Length && MovingDown(b, lo, hi, |c|, c)
    ensures HoldsAt(b, 0, c[..lo] + c[hi..]) && ConstructedIn(b, |c| - (hi - lo), |c|)
  {
    var d := c[..lo] + c[hi..];
    forall k | 0 <= k < |d| ensures b[k] == Live(d[k]) {
      assert d[k] == c[if k < lo then k else k + (hi - lo)];
    }
  }

  lemma NothingMovedYet<T>(b: array<Slot<T>>, lo: nat, hi: nat, c: seq<T>)
    requires lo <= hi <= |c| <= b.Length && HoldsAt(b, 0, c)
    ensures MovingDown(b, lo, hi, hi, c)
  {
    forall k | 0 <= k < |c| ensures b[k] == Live(c[k]) {}
  }

  // Move-assign the elements from hi on to the slots from lo on.
  method MoveDown<T>(b: array<Slot<T>>, size: nat, lo: nat, hi: nat, ghost c: seq<T>)
    requires lo <= hi <= size == |c| <= b.Length && HoldsAt(b, 0, c)
    modifies b
    ensures HoldsAt(b, 0, c[..lo] + c[hi..]) && ConstructedIn(b, size - (hi - lo), size)
    ensures forall k :: size <= k < b.Length ==> b[k] == old(b[k])
  {
    hide MovingDown;
    NothingMovedYet(b, lo, hi, c);
    for i := hi to size
      invariant MovingDown(b, lo, hi, i, c)
      invariant forall k :: size <= k < b.Length ==> b[k] == old(b[k])
    {
      MoveOneDown(b, lo, hi, i, c);
    }
    MovedDownHolds(b, lo, hi, c);
  }

  method MoveOneDown<T>(b: array<Slot<T>>, lo: nat, hi: nat, i: nat, ghost c: seq<T>)
    requires lo <= hi <= i < |c| <= b.Length && MovingDown(b, lo, hi, i, c)
    modifies b
    ensures MovingDown(b, lo, hi, i + 1, c)
    ensures forall k :: |c| <= k < b.Length ==> b[k] == old(b[k])
  {
    assert b[i] == Live(c[i]);
    MoveAssign(b, i, i - (hi - lo));
  }

  lemma HoldsJoin<T>(b: array<Slot<T>>, lo: nat, x: seq<T>, y: seq<T>)
    requires lo + |x| + |y| <= b.Length && HoldsAt(b, lo, x) && HoldsAt(b, lo + |x|, y)
    ensures HoldsAt(b, lo, x + y)
  {}

  // ---- The vector ----

  // Doubled as often as it takes to hold `count` elements, which at most doubles `count`.
  ghost function Doubled(capacity: nat, count: nat): (r: nat)
    requires capacity > 0
    ensures r >= count && r >= capacity && (r == capacity || r < 2 * count)
    decreases count - capacity
  {
    if capacity < count then Doubled(2 * capacity, count) else capacity
  }

  ghost function Max(x: nat, y: nat): nat {
    if x < y then y else x
  }

  ghost function Min(x: nat, y: nat): nat {
    if x < y then x else y
  }

  lemma {:induction false} DoubledIs(capacity: nat, count: nat, k: nat)
    requires capacity > 0 && capacity * Pow2(k) >= count && (k > 0 ==> capacity * Pow2(k - 1) < count)
    ensures Doubled(capacity, count) == capacity * Pow2(k)
    decreases k
  {
    if k > 0 {
      assert capacity * Pow2(k) == 2 * capacity * Pow2(k - 1);
      if k > 1 {
        assert capacity * Pow2(k - 1) == 2 * capacity * Pow2(k - 2);
        PowerAtLeast(capacity, k - 1);
      }
      DoubledIs(2 * capacity, count, k - 1);
    }
  }

  lemma {:induction false} PowerAtLeast(capacity: nat, k: nat)
    ensures capacity * Pow2(k) >= capacity
  {}

  // ---- The size of an allocation in bytes ----

  // What is asked of malloc, computed in size_t.
  ghost function AllocationBytes(slots: nat, size: nat): nat {
    (slots * size) % (SIZE_MAX + 1)
  }

  // The allocation holds the slots exactly when their number passes the guard of reserve,
  // which looks at the request and not at the capacity it is doubled to.
  lemma AllocationHoldsIff(slots: nat, size: nat)
    requires size > 0
    ensures AllocationBytes(slots, size) == slots * size <==> slots <= SIZE_MAX / size
  {
    QuotientBounds(SIZE_MAX, size);
    var q := SIZE_MAX / size;
    if slots <= q {
      MulMonotone(size, slots, q);
    } else {
      MulMonotone(size, q + 1, slots);
    }
  }

  // Up to half of the guard there is no difference.
  lemma HalfRequestsHold(capacity: nat, count: nat, size: nat)
    requires size > 0 && 0 < capacity <= SIZE_MAX / size && count <= SIZE_MAX / size / 2
    ensures var slots := Doubled(capacity, count); AllocationBytes(slots, size) == slots * size
  {
    AllocationHoldsIff(Doubled(capacity, count), size);
  }

  // Above it there is: 2^60 + 1 elements of 12 bytes pass both guards, and the doubled
  // capacity of 2^61 then wraps to an allocation too small even for the request.
  lemma DoublingMayOverflow()
    ensures var count, size := 0x1000_0000_0000_0001, 12;
            && count <= SIZE_MAX / size && count <= SIZE_MAX / 2
            && Doubled(8, count) == 0x2000_0000_0000_0000
            && AllocationBytes(Doubled(8, count), size) < count * size
  {
    Powers();
    DoubledIs(8, 0x1000_0000_0000_0001, 58);
  }

  lemma Powers()
    ensures Pow2(57) == 0x200_0000_0000_0000 && Pow2(58) == 0x400_0000_0000_0000
  {
    assert Pow2(8) == 0x100;
    assert Pow2(16) == 0x1_0000;
    assert Pow2(24) == 0x100_0000;
    assert Pow2(32) == UINT_LIMIT;
    assert Pow2(40) == 0x100_0000_0000;
    assert Pow2(48) == 0x1_0000_0000_0000;
    assert Pow2(56) == 0x100_0000_0000_0000;
  }

  class SmallVector<T(0)> {
    const inlineCount: nat
    const sizeofElement: nat
    const defaultValue: T
    const heap: Heap<T>
    const stackStorage: array<Slot<T>>
    var ptr: array?<Slot<T>>
    var bufferSize: nat
    var bufferCapacity: nat
    ghost var contents: seq<T>

    // The most elements that can be asked for.
    ghost function MaxCount(): nat
      requires sizeofElement > 0
    {
      Min(SIZE_MAX / sizeofElement, SIZE_MAX / 2)
    }

    // With no inline elements there is no inline storage to point to.
    function StackData(): array?<Slot<T>> {
      if inlineCount == 0 then null else stackStorage
    }

    // The heap buffer the vector has to free.
    ghost function Owned(): set<array<Slot<T>>>
      reads this
    {
      if ptr == null || ptr == stackStorage then {} else {ptr}
    }

    ghost function Repr(): set<object>
      reads this
    {
      {this, heap, stackStorage} + Owned()
    }

    ghost predicate Valid()
      reads this, heap, stackStorage, Owned()
    {
      && sizeofElement > 0 && stackStorage.Length == inlineCount <= SIZE_MAX
      && stackStorage !in heap.live && Owned() <= heap.live
      && (ptr == null ==> bufferCapacity == 0)
      && (ptr == stackStorage ==> inlineCount > 0)
      && (ptr != null ==> bufferCapacity == ptr.Length)
      && (Owned() != {} ==> bufferCapacity > inlineCount)
      && bufferSize == |contents| <= bufferCapacity <= SIZE_MAX
      && (ptr != null ==> HoldsAt(ptr, 0, contents) && RawIn(ptr, bufferSize, bufferCapacity))
      && (ptr != stackStorage ==> RawIn(stackStorage, 0, inlineCount))
    }

    // Buffers given up were freed, and nobody else's.
    twostate predicate OwnershipKept()
      reads this, heap
    {
      heap.live == old(heap.live) - old(Owned()) + Owned()
    }

    constructor (heap: Heap<T>, inlineCount: nat, sizeofElement: nat, defaultValue: T)
      requires sizeofElement > 0 && inlineCount <= SIZE_MAX
      requires forall b :: b in heap.live ==> allocated(b)
      ensures Valid() && contents == [] && this.heap == heap && this.inlineCount == inlineCount
      ensures this.sizeofElement == sizeofElement && this.defaultValue == defaultValue
      ensures fresh(this) && fresh(stackStorage) && Owned() == {}
      ensures bufferCapacity == inlineCount && (ptr == null <==> inlineCount == 0)
    {
      this.heap := heap;
      this.inlineCount := inlineCount;
      this.sizeofElement := sizeofElement;
      this.defaultValue := defaultValue;
      var storage := new Slot<T>[inlineCount](_ => Raw);
      stackStorage := storage;
      ptr := if inlineCount == 0 then null else storage;
      bufferCapacity := inlineCount;
      bufferSize := 0;
      contents := [];
    }

    method Clear()
      requires Valid()
      modifies this, Owned(), stackStorage
      ensures Valid() && contents == [] && ptr == old(ptr) && bufferCapacity == old(bufferCapacity)
    {
      if ptr != null {
        DestroyRange(ptr, 0, bufferSize);
      }
      bufferSize := 0;
      contents := [];
    }

    // False when the program would be terminated: the request cannot be met.
    method Reserve(count: nat) returns (ok: bool)
      requires Valid()
      modifies Repr()
      ensures ok <==> count <= MaxCount()
      ensures Valid() && contents == old(contents) && OwnershipKept() && fresh(Repr() - old(Repr()))
      ensures ok && count > old(bufferCapacity) ==>
                bufferCapacity == Doubled(Max(Max(old(bufferCapacity), 1), inlineCount), count)
      ensures !ok || count <= old(bufferCapacity) ==> bufferCapacity == old(bufferCapacity)
      ensures count <= old(bufferCapacity) ==> ptr == old(ptr)
    {
      if count > SIZE_MAX / sizeofElement || count > SIZE_MAX / 2 {
        return false;
      }
      if count > bufferCapacity {
        var target := if bufferCapacity == 0 then 1 else bufferCapacity;
        target := if target < inlineCount then inlineCount else target;
        ghost var start := target;
        while target < count
          invariant target >= inlineCount && target > 0 && target >= bufferCapacity
          invariant Doubled(target, count) == Doubled(start, count)
          invariant target <= SIZE_MAX
          decreases count - target
        {
          assert target * 2 <= SIZE_MAX;
          target := target * 2;
        }
        MoveTo(target);
      }
      return true;
    }

    // Give the elements a new buffer, inline if it is small enough.
    method MoveTo(target: nat)
      requires Valid() && target >= inlineCount && target > 0 && bufferCapacity < target <= SIZE_MAX
      modifies Repr()
      ensures Valid() && contents == old(contents) && OwnershipKept() && fresh(Repr() - old(Repr()))
      ensures bufferCapacity == target
    {
      var newBuffer: array<Slot<T>>;
      if target > inlineCount {
        newBuffer := heap.Malloc(target);
      } else {
        newBuffer := stackStorage;
      }
      if ptr != null {
        Relocate(ptr, 0, bufferSize, newBuffer, 0, contents);
        if ptr != stackStorage {
          heap.Free(ptr);
        }
      }
      ptr := newBuffer;
      bufferCapacity := target;
    }

    method PushBack(t: T) returns (ok: bool)
      requires Valid()
      modifies Repr()
      ensures Valid() && OwnershipKept() && fresh(Repr() - old(Repr()))
      ensures contents == if ok then old(contents) + [t] else old(contents)
      ensures ok <==> |old(contents)| + 1 <= MaxCount()
    {
      hide Doubled, Max, Min, MaxCount;
      ok := Reserve(bufferSize + 1);
      if ok {
        AppendValues([t]);
      }
    }

    method Resize(newSize: nat) returns (ok: bool)
      requires Valid()
      modifies Repr()
      ensures Valid() && OwnershipKept() && fresh(Repr() - old(Repr()))
      ensures newSize <= |old(contents)| ==> ok && contents == old(contents)[..newSize] && ptr == old(ptr)
      ensures newSize > |old(contents)| ==> (ok <==> newSize <= MaxCount())
      ensures newSize > |old(contents)| && ok ==>
                contents == old(contents) + seq(newSize - |old(contents)|, _ => defaultValue)
      ensures !ok ==> contents == old(contents)
    {
      hide Doubled, Max, Min, MaxCount;
      if newSize < bufferSize {
        Truncate(newSize);
      } else if newSize > bufferSize {
        ok := Reserve(newSize);
        if !ok {
          return;
        }
        AppendValues(seq(newSize - bufferSize, _ => defaultValue));
      }
      return true;
    }

    method Truncate(newSize: nat)
      requires Valid() && newSize < |contents|
      modifies this, Owned(), stackStorage
      ensures Valid() && ptr == old(ptr) && contents == old(contents)[..newSize]
    {
      DestroyRange(ptr, newSize, bufferSize);
      bufferSize := newSize;
      contents := contents[..newSize];
    }

    // Construct values after the last element, where there is room for them.
    method AppendValues(values: seq<T>)
      requires Valid() && |contents| + |values| <= bufferCapacity
      modifies this, Owned(), stackStorage
      ensures Valid() && ptr == old(ptr) && contents == old(contents) + values
    {
      if |values| > 0 {
        CopyConstruct(ptr, bufferSize, values);
      }
      bufferSize := bufferSize + |values|;
      contents := contents + values;
    }

    method PopBack()
      requires Valid()
      modifies Repr()
      ensures Valid() && OwnershipKept() && ptr == old(ptr)
      ensures contents == if old(contents) == [] then [] else old(contents)[..|old(contents)| - 1]
    {
      if bufferSize != 0 {
        var _ := Resize(bufferSize - 1);
      }
    }

    // Insert values, taken from outside the vector, before position pos.
    method Insert(pos: nat, values: seq<T>) returns (ok: bool)
      requires Valid() && pos <= |contents| && |contents| + |values| <= SIZE_MAX
      modifies Repr()
      ensures Valid() && OwnershipKept() && fresh(Repr() - old(Repr()))
      ensures contents == if ok then old(contents[..pos]) + values + old(contents[pos..]) else old(contents)
      ensures ok <==> pos < |old(contents)| || |old(contents)| + |values| <= MaxCount()
    {
      hide MaxCount;
      if pos == bufferSize {
        ok := InsertAtEnd(values);
        assert old(contents)[..pos] == old(contents) && old(contents)[pos..] == [];
      } else if bufferSize + |values| > bufferCapacity {
        InsertReallocating(pos, values);
        ok := true;
      } else {
        InsertInPlace(pos, values);
        ok := true;
      }
    }

    // The case of Insert in which the values come after the last element.
    method InsertAtEnd(values: seq<T>) returns (ok: bool)
      requires Valid() && |contents| + |values| <= SIZE_MAX
      modifies Repr()
      ensures Valid() && OwnershipKept() && fresh(Repr() - old(Repr()))
      ensures contents == if ok then old(contents) + values else old(contents)
      ensures ok <==> |old(contents)| + |values| <= MaxCount()
    {
      hide Doubled, Max, Min, MaxCount;
      ok := Reserve(bufferSize + |values|);
      if ok {
        AppendValues(values);
      }
    }

    // The case of Insert in which there is room.
    method InsertInPlace(pos: nat, values: seq<T>)
      requires Valid() && pos < |contents| && |contents| + |values| <= bufferCapacity
      modifies this, Owned(), stackStorage
      ensures Valid() && ptr == old(ptr)
      ensures contents == old(contents[..pos]) + values + old(contents[pos..])
    {
      ghost var head, tail := contents[..pos], contents[pos..];
      MoveTailUp(ptr, bufferSize, pos, |values|, contents);
      FillGap(ptr, bufferSize, pos, values);
      HoldsJoin(ptr, 0, head, values);
      HoldsJoin(ptr, 0, head + values, tail);
      bufferSize := bufferSize + |values|;
      contents := head + values + tail;
    }

    // The case of Insert in which everything moves to a new buffer of exactly the size
    // needed, which is never the inline one.
    method InsertReallocating(pos: nat, values: seq<T>)
      requires Valid() && pos < |contents| && bufferCapacity < |contents| + |values| <= SIZE_MAX
      modifies Repr()
      ensures Valid() && OwnershipKept() && fresh(Repr() - old(Repr()))
      ensures contents == old(contents[..pos]) + values + old(contents[pos..])
      ensures bufferCapacity == |contents|
    {
      var count := |values|;
      var target := bufferSize + count;
      assert target > inlineCount && target >= count;
      var newBuffer := heap.Malloc(target);
      RelocateAround(ptr, bufferSize, pos, values, newBuffer, contents);
      if ptr != stackStorage {
        heap.Free(ptr);
      }
      ptr := newBuffer;
      bufferCapacity := target;
      bufferSize := bufferSize + count;
      contents := contents[..pos] + values + contents[pos..];
    }

    method Erase(pos: nat)
      requires Valid() && pos < |contents|
      modifies this, Owned(), stackStorage
      ensures Valid() && ptr == old(ptr)
      ensures contents == old(contents)[..pos] + old(contents)[pos + 1..]
    {
      MoveDown(ptr, bufferSize, pos, pos + 1, contents);
      bufferSize := bufferSize - 1;
      DestroyRange(ptr, bufferSize, bufferSize + 1);
      contents := contents[..pos] + contents[pos + 1..];
    }

    // The elements after the range move down over it.
    method EraseRange(lo: nat, hi: nat)
      requires Valid() && lo <= hi <= |contents|
      modifies Repr()
      ensures Valid() && OwnershipKept() && ptr == old(ptr)
      ensures contents == old(contents)[..lo] + old(contents)[hi..]
    {
      if hi == bufferSize {
        var _ := Resize(lo);
      } else {
        var newSize := bufferSize - (hi - lo);
        MoveDown(ptr, bufferSize, lo, hi, contents);
        DestroyRange(ptr, newSize, bufferSize);
        bufferSize := newSize;
        contents := contents[..lo] + contents[hi..];
      }
    }

    // The two vectors share no storage; a vector is trivially apart from itself.
    ghost predicate Apart(other: SmallVector<T>)
      reads this, other
    {
      && heap == other.heap && inlineCount == other.inlineCount && sizeofElement == other.sizeofElement
      && (other != this ==>
            stackStorage != other.stackStorage && Owned() !! other.Owned()
            && stackStorage !in other.Owned() && other.stackStorage !in Owned())
    }

    // Take over another vector's elements: its heap buffer if it has one, else one by
    // one. Assigning a vector to itself empties it.
    method MoveFrom(other: SmallVector<T>) returns (ok: bool)
      requires Valid() && other.Valid() && Apart(other)
      modifies Repr(), other.Repr()
      ensures Valid() && other.Valid() && Apart(other)
      ensures ok <==> other == this || old(other.Owned()) != {} || old(|other.contents| <= MaxCount())
      ensures ok && other != this ==> contents == old(other.contents) && other.contents == []
      ensures !ok ==> contents == [] && other.contents == old(other.contents)
      ensures other == this ==> contents == []
      ensures ok && old(other.Owned()) != {} && other != this ==> ptr == old(other.ptr)
      ensures old(other.ptr) == null && inlineCount > 0 ==> ptr == null
      ensures old(other.Owned() == {} && (other.ptr != null || inlineCount == 0))
              && |contents| <= old(bufferCapacity) ==>
                ptr == old(ptr) && bufferCapacity == old(bufferCapacity)
      ensures heap.live == old(heap.live) - old(Owned() + other.Owned()) + (Owned() + other.Owned())
    {
      hide Doubled, Max, Min, MaxCount;
      Clear();
      if other.ptr != other.StackData() {
        Pilfer(other);
        return true;
      }
      ok := MoveInline(other);
    }

    // The elements of the other vector's inline storage are moved one by one.
    method MoveInline(other: SmallVector<T>) returns (ok: bool)
      requires Valid() && contents == [] && other.Valid() && Apart(other) && other.ptr == other.StackData()
      modifies Repr(), other, other.stackStorage
      ensures Valid() && other.Valid() && Apart(other) && OwnershipKept() && other.Owned() == {}
      ensures ok <==> |old(other.contents)| <= MaxCount()
      ensures contents == (if ok then old(other.contents) else [])
      ensures other != this ==> other.contents == if ok then [] else old(other.contents)
      ensures |contents| <= old(bufferCapacity) ==> ptr == old(ptr) && bufferCapacity == old(bufferCapacity)
    {
      hide Doubled, Max, Min, MaxCount;
      ok := Reserve(other.bufferSize);
      if ok && other.bufferSize > 0 {
        MoveElements(other);
      }
    }

    method Pilfer(other: SmallVector<T>)
      requires Valid() && contents == [] && other.Valid() && Apart(other) && other.ptr != other.StackData()
      modifies Repr(), other
      ensures Valid() && other.Valid() && Apart(other) && other.ptr == null && other.contents == []
      ensures contents == (if other == this then [] else old(other.contents))
      ensures other != this ==> ptr == old(other.ptr)
      ensures Owned() + other.Owned() == if other == this then {} else old(other.Owned())
      ensures heap.live == old(heap.live) - old(Owned())
    {
      if ptr != null && ptr != stackStorage {
        heap.Free(ptr);
      }
      ptr, bufferSize, bufferCapacity, contents := other.ptr, other.bufferSize, other.bufferCapacity, other.contents;
      other.ptr, other.bufferSize, other.bufferCapacity, other.contents := null, 0, 0, [];
    }

    method MoveElements(other: SmallVector<T>)
      requires Valid() && contents == [] && other.Valid() && Apart(other) && other.ptr == other.StackData()
      requires other != this && 0 < other.bufferSize <= bufferCapacity
      modifies this, Owned(), stackStorage, other, other.stackStorage
      ensures Valid() && other.Valid() && ptr == old(ptr) && other.ptr == old(other.ptr)
      ensures contents == old(other.contents) && other.contents == []
    {
      Relocate(other.ptr, 0, other.bufferSize, ptr, 0, other.contents);
      bufferSize, contents := other.bufferSize, other.contents;
      other.bufferSize, other.contents := 0, [];
    }

    method CopyFrom(other: SmallVector<T>) returns (ok: bool)
      requires Valid() && other.Valid() && Apart(other)
      modifies Repr()
      ensures Valid() && other.Valid() && Apart(other) && OwnershipKept()
      ensures ok <==> other == this || |old(other.contents)| <= MaxCount()
      ensures contents == if ok then old(other.contents) else []
      ensures other.contents == old(other.contents)
    {
      hide Doubled, Max, Min, MaxCount;
      if other == this {
        return true;
      }
      Clear();
      ok := Reserve(other.bufferSize);
      if ok && other.bufferSize > 0 {
        CopyElements(other);
      }
    }

    method CopyElements(other: SmallVector<T>)
      requires Valid() && contents == [] && other.Valid() && Apart(other)
      requires other != this && 0 < other.bufferSize <= bufferCapacity
      modifies this, Owned(), stackStorage
      ensures Valid() && other.Valid() && ptr == old(ptr)
      ensures contents == other.contents && other.contents == old(other.contents)
    {
      CopyObjects(other.ptr, other.bufferSize, ptr, other.contents);
      bufferSize, contents := other.bufferSize, other.contents;
    }

    // The destructor: every object is destroyed and the heap buffer is freed.
    method Destroy()
      requires Valid()
      modifies Repr()
      ensures heap.live == old(heap.live) - old(Owned())
      ensures RawIn(stackStorage, 0, stackStorage.Length)
    {
      Clear();
      if ptr != null && ptr != stackStorage {
        heap.Free(ptr);
      }
    }
  }
}

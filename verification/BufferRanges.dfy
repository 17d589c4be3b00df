// Sizes of structs in buffers, and the byte ranges of a buffer that a shader accesses.
module BufferRanges {
  import opened Arithmetic

  datatype Layout = RowMajor | ColumnMajor | Undeclared

  type Dimension = n: nat | n > 0 witness 1

  // What the size of a member depends on: a matrix has `rows` components in each of
  // `columns` column vectors. Strides and offsets are None when the module
  // lacks the decoration.
  datatype MemberType =
    | Opaque
    | PhysicalPointer
    | Array(stride: Option<nat>, size: nat)
    | Struct(members: seq<Member>)
    | Vector(components: nat, width: nat)
    | Matrix(rows: Dimension, columns: Dimension, stride: Option<nat>, layout: Layout)

  datatype Member = Member(offset: Option<nat>, ty: MemberType)

  datatype Option<T> = None | Some(value: T)

  // ---- Declared sizes; None is an error ----

  function MemberSize(m: Member): Option<nat>
    decreases m, 0
  {
    match m.ty
    case Opaque => None
    case PhysicalPointer => Some(8)
    case Array(stride, size) => if stride.None? then None else Some((stride.value * size) % UINT_LIMIT)
    case Struct(members) => StructSize(members)
    case Vector(components, width) => Some(components * (width / 8))
    case Matrix(rows, columns, stride, layout) =>
      if stride.None? then None
      else match layout
        case RowMajor => Some((stride.value * rows) % UINT_LIMIT)
        case ColumnMajor => Some((stride.value * columns) % UINT_LIMIT)
        case Undeclared => None
  }

  // The end of the last member.
  function StructSize(members: seq<Member>): Option<nat>
    decreases members, 1
  {
    if members == [] then None
    else
      var last := members[|members| - 1];
      var size := MemberSize(last);
      if last.offset.None? || size.None? then None else Some(last.offset.value + size.value)
  }

  // ---- What the sizes mean ----

  // `size` is where n places of `width` bytes, one after the other, end.
  ghost predicate EndsPlaces(size: nat, n: nat, width: nat) {
    && (forall i :: 0 <= i < n ==> PlaceEnd(i, width) <= size)
    && (if n == 0 then size == 0 else exists i :: 0 <= i < n && PlaceEnd(i, width) == size)
  }

  ghost function PlaceEnd(i: nat, width: nat): nat {
    i * width + width
  }

  // Where the vector with component (row, column) of a matrix starts: a column vector in
  // column-major layout, a row vector in row-major layout.
  ghost function VectorOffset(layout: Layout, stride: nat, row: nat, column: nat): nat {
    if layout.ColumnMajor? then column * stride else row * stride
  }

  // `size` is where the last of the vectors that hold the components ends.
  ghost predicate EndsVectors(size: nat, rows: nat, columns: nat, stride: nat, layout: Layout) {
    && (forall r, c :: 0 <= r < rows && 0 <= c < columns ==> VectorOffset(layout, stride, r, c) + stride <= size)
    && (exists r, c :: 0 <= r < rows && 0 <= c < columns && VectorOffset(layout, stride, r, c) + stride == size)
  }

  // The size of a member, from the places of its parts. Arrays and matrices are computed in
  // 32 bits.
  ghost predicate HasSize(m: Member, size: nat)
    decreases m, 0
  {
    match m.ty
    case Opaque => false
    case PhysicalPointer => EndsPlaces(size, 8, 1)
    case Array(stride, n) => stride.Some? && exists e: nat :: EndsPlaces(e, n, stride.value) && size == e % UINT_LIMIT
    case Struct(members) => StructEnds(members, size)
    case Vector(components, width) => EndsPlaces(size, components, width / 8)
    case Matrix(rows, columns, stride, layout) =>
      && stride.Some? && !layout.Undeclared?
      && exists e: nat :: EndsVectors(e, rows, columns, stride.value, layout) && size == e % UINT_LIMIT
  }

  // A struct ends where its last member does.
  ghost predicate StructEnds(members: seq<Member>, size: nat)
    decreases members, 1
  {
    && members != []
    && (var last := members[|members| - 1];
        last.offset.Some? && last.offset.value <= size && HasSize(last, size - last.offset.value))
  }

  lemma PlacesEndAt(size: nat, n: nat, width: nat)
    ensures EndsPlaces(size, n, width) <==> size == n * width
  {
    forall i | 0 <= i < n ensures PlaceEnd(i, width) <= n * width {
      MulMonotone(width, i + 1, n);
    }
    if n > 0 {
      assert PlaceEnd(n - 1, width) == n * width;
    }
  }

  lemma VectorsEndAt(size: nat, rows: Dimension, columns: Dimension, stride: nat, layout: Layout)
    ensures EndsVectors(size, rows, columns, stride, layout) <==>
              size == stride * (if layout.ColumnMajor? then columns else rows)
  {
    hide EndsVectors, VectorOffset;
    var end := stride * (if layout.ColumnMajor? then columns else rows);
    forall r: nat, c: nat | r < rows && c < columns ensures VectorOffset(layout, stride, r, c) + stride <= end {
      VectorEnds(rows, columns, stride, layout, r, c);
    }
    VectorEnds(rows, columns, stride, layout, rows - 1, columns - 1);
    LastVectorEnds(size, rows, columns, stride, layout, end);
  }

  lemma VectorEnds(rows: Dimension, columns: Dimension, stride: nat, layout: Layout, r: nat, c: nat)
    requires r < rows && c < columns
    ensures var end := stride * (if layout.ColumnMajor? then columns else rows);
            && VectorOffset(layout, stride, r, c) + stride <= end
            && (r == rows - 1 && c == columns - 1 ==> VectorOffset(layout, stride, r, c) + stride == end)
  {
    if layout.ColumnMajor? {
      MulMonotone(stride, c + 1, columns);
    } else {
      MulMonotone(stride, r + 1, rows);
    }
  }

  lemma LastVectorEnds(size: nat, rows: Dimension, columns: Dimension, stride: nat, layout: Layout, end: nat)
    requires forall r: nat, c: nat :: r < rows && c < columns ==> VectorOffset(layout, stride, r, c) + stride <= end
    requires VectorOffset(layout, stride, rows - 1, columns - 1) + stride == end
    ensures EndsVectors(size, rows, columns, stride, layout) <==> size == end
  {
    hide VectorOffset;
    if EndsVectors(size, rows, columns, stride, layout) {
      assert VectorOffset(layout, stride, rows - 1, columns - 1) + stride <= size;
    }
  }

  lemma MatrixSizeMeets(m: Member, rows: Dimension, columns: Dimension, stride: nat, layout: Layout, size: nat)
    requires m.ty == Matrix(rows, columns, Some(stride), layout) && !layout.Undeclared?
    ensures MemberSize(m) == Some(size) <==> HasSize(m, size)
  {
    hide EndsVectors;
    var end := stride * (if layout.ColumnMajor? then columns else rows);
    forall e: nat ensures EndsVectors(e, rows, columns, stride, layout) <==> e == end {
      VectorsEndAt(e, rows, columns, stride, layout);
    }
    assert EndsVectors(end, rows, columns, stride, layout);
    assert MemberSize(m) == Some(end % UINT_LIMIT);
    assert HasSize(m, size) <==> size == end % UINT_LIMIT;
  }

  // The computed sizes are the sizes.
  lemma {:induction false} MemberSizeMeets(m: Member, size: nat)
    ensures MemberSize(m) == Some(size) <==> HasSize(m, size)
    decreases m, 0
  {
    hide EndsPlaces, EndsVectors;
    match m.ty
    case Array(stride, n) =>
      if stride.Some? {
        PlacesEndAt(n * stride.value, n, stride.value);
        forall e ensures EndsPlaces(e, n, stride.value) <==> e == n * stride.value {
          PlacesEndAt(e, n, stride.value);
        }
      }
    case Struct(members) => StructSizeMeets(members, size);
    case Vector(components, width) => PlacesEndAt(size, components, width / 8);
    case Matrix(rows, columns, stride, layout) =>
      if stride.Some? && !layout.Undeclared? {
        MatrixSizeMeets(m, rows, columns, stride.value, layout, size);
      }
    case PhysicalPointer => PlacesEndAt(size, 8, 1);
    case Opaque =>
  }

  lemma {:induction false} StructSizeMeets(members: seq<Member>, size: nat)
    ensures StructSize(members) == Some(size) <==> StructEnds(members, size)
    decreases members, 1
  {
    if members != [] {
      var last := members[|members| - 1];
      if last.offset.Some? && last.offset.value <= size {
        MemberSizeMeets(last, size - last.offset.value);
      }
    }
  }

  lemma KnownSizeMeets(m: Member)
    ensures MemberSize(m).Some? ==> HasSize(m, MemberSize(m).value)
    ensures MemberSize(m).None? ==> forall size: nat :: !HasSize(m, size)
  {
    if MemberSize(m).Some? {
      MemberSizeMeets(m, MemberSize(m).value);
    }
    forall size: nat ensures HasSize(m, size) ==> MemberSize(m) == Some(size) {
      MemberSizeMeets(m, size);
    }
  }

  // ---- Ranges ----

  datatype Range = Range(index: nat, offset: nat, length: nat)

  // The bytes of a buffer.
  ghost predicate Covers(r: Range, byte: nat) {
    r.offset <= byte < r.offset + r.length
  }

  // Offsets are declared and do not decrease.
  ghost predicate Ordered(members: seq<Member>) {
    && (forall i :: 0 <= i < |members| ==> members[i].offset.Some? && members[i].offset.value < UINT_LIMIT)
    && (forall i, j :: 0 <= i < j < |members| ==> members[i].offset.value <= members[j].offset.value)
  }

  // Where the range of a member ends: at the next member, or at the end of the struct.
  ghost function EndOf(members: seq<Member>, i: nat): nat
    requires Ordered(members) && i < |members| && StructSize(members).Some?
  {
    if i + 1 < |members| then members[i + 1].offset.value else StructSize(members).value
  }

  ghost predicate IsRangeOf(members: seq<Member>, r: Range)
    requires Ordered(members) && StructSize(members).Some?
  {
    r.index < |members| && r.offset == members[r.index].offset.value && r.offset + r.length == EndOf(members, r.index)
  }

  // An access fails when a decoration it needs is missing, or when the size of the last
  // member is asked for and is not known.
  ghost predicate Rangeable(members: seq<Member>, i: nat)
    requires i < |members|
  {
    && members[i].offset.Some?
    && (if i + 1 < |members| then members[i + 1].offset.Some? else exists size: nat :: HasSize(members[i], size))
  }

  ghost predicate Accessed(ranges: seq<Range>, i: nat) {
    exists k :: 0 <= k < |ranges| && ranges[k].index == i
  }

  // Ranges of one buffer, gathered access by access.
  class BufferAccessHandler {
    const members: seq<Member>
    var seen: set<nat>
    var ranges: seq<Range>

    // One range per accessed member.
    ghost predicate Valid()
      reads this
    {
      && (forall i :: i in seen <==> Accessed(ranges, i))
      && (forall k :: 0 <= k < |ranges| ==> IsAccessRange(members, ranges[k]))
      && (forall j, k :: 0 <= j < k < |ranges| ==> ranges[j].index != ranges[k].index)
    }

    constructor (members: seq<Member>)
      ensures Valid() && this.members == members && ranges == [] && seen == {}
    {
      this.members, seen, ranges := members, {}, [];
    }

    // An access chain into member `index`. False when it is an error.
    method Handle(index: nat) returns (ok: bool)
      requires Valid() && index < |members|
      modifies this
      ensures ok <==> index in old(seen) || Rangeable(members, index)
      ensures ok ==> Valid() && seen == old(seen) + {index}
      ensures index in old(seen) ==> ranges == old(ranges)
    {
      hide HasSize, MemberSize;
      if index in seen {
        return true;
      }
      seen := seen + {index};
      if members[index].offset.None? {
        return false;
      }
      var offset := members[index].offset.value;
      var range;
      if index + 1 < |members| {
        if members[index + 1].offset.None? {
          return false;
        }
        range := (members[index + 1].offset.value - offset) % UINT_LIMIT;
      } else {
        var size := MemberSize(members[index]);
        KnownSizeMeets(members[index]);
        if size.None? {
          return false;
        }
        range := size.value;
      }
      ghost var before := ranges;
      ranges := ranges + [Range(index, offset, range)];
      forall i ensures i in seen <==> Accessed(ranges, i) {
        if i == index {
          assert ranges[|before|].index == index;
        } else if Accessed(before, i) {
          var k :| 0 <= k < |before| && before[k].index == i;
          assert ranges[k].index == i;
        }
      }
      return true;
    }
  }

  // The range recorded for a member: up to the next offset, in 32-bit arithmetic, or the
  // size of the last member.
  ghost predicate IsAccessRange(members: seq<Member>, r: Range) {
    && r.index < |members| && Rangeable(members, r.index) && r.offset == members[r.index].offset.value
    && (if r.index + 1 < |members| then r.length == (members[r.index + 1].offset.value - r.offset) % UINT_LIMIT
        else HasSize(members[r.index], r.length))
  }

  // With offsets in order it ends where the next member, or the struct, does.
  lemma AccessRangeEnds(members: seq<Member>, r: Range)
    requires Ordered(members) && StructSize(members).Some? && IsAccessRange(members, r)
    ensures IsRangeOf(members, r)
  {
    hide HasSize;
    if r.index + 1 == |members| {
      MemberSizeMeets(members[r.index], r.length);
    }
  }

  // All accesses of a program, in the order they are met, up to the first error.
  method GetActiveBufferRanges(members: seq<Member>, accesses: seq<nat>) returns (ok: bool, ranges: seq<Range>)
    requires forall i :: i in accesses ==> i < |members|
    ensures ok <==> forall i :: i in accesses ==> Rangeable(members, i)
    ensures forall k :: 0 <= k < |ranges| ==> IsAccessRange(members, ranges[k])
    ensures forall j, k :: 0 <= j < k < |ranges| ==> ranges[j].index != ranges[k].index
    ensures ok ==> forall i :: i in accesses <==> Accessed(ranges, i)
  {
    var handler := new BufferAccessHandler(members);
    for n := 0 to |accesses|
      invariant handler.Valid() && handler.members == members && fresh(handler)
      invariant forall i :: i in handler.seen <==> i in accesses[..n]
      invariant forall i :: i in accesses[..n] ==> Rangeable(members, i)
    {
      assert accesses[n] in accesses;
      ok := handler.Handle(accesses[n]);
      if !ok {
        return false, [];
      }
      assert accesses[..n + 1] == accesses[..n] + [accesses[n]];
      SeenAreRangeable(members, handler.ranges, accesses[n], handler.seen);
    }
    assert accesses[..|accesses|] == accesses;
    return true, handler.ranges;
  }

  lemma SeenAreRangeable(members: seq<Member>, ranges: seq<Range>, i: nat, seen: set<nat>)
    requires i in seen && forall x :: x in seen <==> Accessed(ranges, x)
    requires forall k :: 0 <= k < |ranges| ==> IsAccessRange(members, ranges[k])
    ensures i < |members| && Rangeable(members, i)
  {}

  // ---- Disjoint, inside, and tiling ----

  lemma RangesInside(members: seq<Member>, r: Range)
    requires Ordered(members) && StructSize(members).Some? && IsRangeOf(members, r)
    ensures members[0].offset.value <= r.offset && r.offset + r.length <= StructSize(members).value
  {}

  // The range of an earlier member ends before that of a later one starts.
  lemma RangesDisjoint(members: seq<Member>, r: Range, s: Range)
    requires Ordered(members) && StructSize(members).Some?
    requires IsRangeOf(members, r) && IsRangeOf(members, s) && r.index < s.index
    ensures r.offset + r.length <= s.offset
  {}

  // The member whose range holds a byte of the struct.
  lemma {:induction false} SomeMemberCovers(members: seq<Member>, byte: nat, i: nat) returns (k: nat)
    requires Ordered(members) && StructSize(members).Some? && i < |members|
    requires members[i].offset.value <= byte < StructSize(members).value
    ensures k < |members| && members[k].offset.value <= byte < EndOf(members, k)
    decreases |members| - i
  {
    if i + 1 < |members| && members[i + 1].offset.value <= byte {
      k := SomeMemberCovers(members, byte, i + 1);
    } else {
      k := i;
    }
  }

  // When every member is accessed the ranges tile the struct: each of its bytes, from
  // the first member's offset to the declared size, is in exactly one range.
  lemma AllRangesTile(members: seq<Member>, ranges: seq<Range>, byte: nat)
    requires Ordered(members) && StructSize(members).Some?
    requires forall k :: 0 <= k < |ranges| ==> IsAccessRange(members, ranges[k])
    requires forall j, k :: 0 <= j < k < |ranges| ==> ranges[j].index != ranges[k].index
    requires forall i :: 0 <= i < |members| ==> Accessed(ranges, i)
    ensures members[0].offset.value <= byte < StructSize(members).value <==>
              exists i :: 0 <= i < |ranges| && Covers(ranges[i], byte)
    ensures forall i, j :: 0 <= i < |ranges| && 0 <= j < |ranges| ==>
              Covers(ranges[i], byte) && Covers(ranges[j], byte) ==> i == j
  {
    if members[0].offset.value <= byte < StructSize(members).value {
      var k := SomeMemberCovers(members, byte, 0);
      assert Accessed(ranges, k);
      var i :| 0 <= i < |ranges| && ranges[i].index == k;
      AccessRangeEnds(members, ranges[i]);
      assert Covers(ranges[i], byte);
    }
    if i :| 0 <= i < |ranges| && Covers(ranges[i], byte) {
      AccessRangeEnds(members, ranges[i]);
      RangesInside(members, ranges[i]);
    }
    forall i, j | 0 <= i < |ranges| && 0 <= j < |ranges| && Covers(ranges[i], byte) && Covers(ranges[j], byte)
      ensures i == j
    {
      AccessRangeEnds(members, ranges[i]);
      AccessRangeEnds(members, ranges[j]);
      if ranges[i].index < ranges[j].index {
        RangesDisjoint(members, ranges[i], ranges[j]);
      } else if ranges[j].index < ranges[i].index {
        RangesDisjoint(members, ranges[j], ranges[i]);
      }
    }
  }
}

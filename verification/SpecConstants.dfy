// Evaluation of specialization constant expressions on 32-bit words.
module SpecConstants {
  import opened Arithmetic

  const HALF: int := 0x8000_0000

  type Word = x: int | 0 <= x < UINT_LIMIT

  datatype Op =
    | IAdd | ISub | IMul
    | BitwiseAnd | BitwiseOr | BitwiseXor | LogicalAnd | LogicalOr
    | ShiftLeftLogical | ShiftRightLogical | ShiftRightArithmetic
    | LogicalEqual | LogicalNotEqual | IEqual | INotEqual
    | ULessThan | ULessThanEqual | UGreaterThan | UGreaterThanEqual
    | SLessThan | SLessThanEqual | SGreaterThan | SGreaterThanEqual
    | UMod | SRem | SMod | UDiv | SDiv
    | LogicalNot | Not | SNegate
    | Select
    | Unsupported

  datatype Kind = UInt | Int | Boolean | OtherKind

  datatype Type = Type(kind: Kind, scalar: bool)

  datatype Node = Constant(ty: Type, value: Word) | Expression(ty: Type, op: Op, args: seq<nat>)

  // `Undefined` is a case the C++ language leaves undefined.
  datatype Result = Value(value: Word) | Error | Undefined

  predicate Evaluable(t: Type) {
    (t.kind == UInt || t.kind == Int || t.kind == Boolean) && t.scalar
  }

  // ---- Words as signed numbers ----

  function Signed(x: Word): int {
    if x < HALF then x else x - UINT_LIMIT
  }

  function ToWord(x: int): Word {
    x % UINT_LIMIT
  }

  function BoolWord(b: bool): Word {
    if b then 1 else 0
  }

  // Division as C++ defines it, towards zero.
  function TruncatedDiv(a: int, b: int): int
    requires b != 0
  {
    if a >= 0 then a / b else -((-a) / b)
  }

  function TruncatedRem(a: int, b: int): int
    requires b != 0
  {
    a - b * TruncatedDiv(a, b)
  }

  // The bitwise operators on the n lowest bits.
  function Bitwise(f: (bool, bool) -> bool, a: nat, b: nat, n: nat): nat {
    if n == 0 then 0
    else 2 * Bitwise(f, a / 2, b / 2, n - 1) + (if f(a % 2 == 1, b % 2 == 1) then 1 else 0)
  }

  lemma {:induction false} BitwiseBound(f: (bool, bool) -> bool, a: nat, b: nat, n: nat)
    ensures Bitwise(f, a, b, n) < Pow2(n)
  {
    if n > 0 {
      BitwiseBound(f, a / 2, b / 2, n - 1);
    }
  }

  lemma WordIsPow2()
    ensures Pow2(32) == UINT_LIMIT
  {
    assert Pow2(4) == 16;
    assert Pow2(8) == 256;
    assert Pow2(12) == 4096;
    assert Pow2(16) == 65536;
    assert Pow2(20) == 0x10_0000;
    assert Pow2(24) == 0x100_0000;
    assert Pow2(28) == 0x1000_0000;
  }

  function BitwiseWord(f: (bool, bool) -> bool, a: Word, b: Word): Word {
    BitwiseBound(f, a, b, 32);
    WordIsPow2();
    Bitwise(f, a, b, 32)
  }

  // ---- The operations as the evaluator performs them ----

  function ApplyUnary(op: Op, a: Word): Result {
    match op
    case LogicalNot => Value(BoolWord(a == 0))
    case Not => Value(UINT_LIMIT - 1 - a)
    case SNegate => if Signed(a) == -HALF then Undefined else Value(ToWord(-Signed(a)))
    case _ => Error
  }

  function ApplyBinary(op: Op, a: Word, b: Word): Result {
    match op
    case IAdd => Value(ToWord(a + b))
    case ISub => Value(ToWord(a - b))
    case IMul => Value(ToWord(a * b))
    case BitwiseAnd => Value(BitwiseWord((x, y) => x && y, a, b))
    case BitwiseOr => Value(BitwiseWord((x, y) => x || y, a, b))
    case BitwiseXor => Value(BitwiseWord((x, y) => x != y, a, b))
    case LogicalAnd => Value(BitwiseWord((x, y) => x && y, a, b))
    case LogicalOr => Value(BitwiseWord((x, y) => x || y, a, b))
    case ShiftLeftLogical => if b >= 32 then Undefined else Value(ToWord(a * Pow2(b)))
    case ShiftRightLogical => if b >= 32 then Undefined else Value(ToWord(a / Pow2(b)))
    case ShiftRightArithmetic => if b >= 32 then Undefined else Value(ToWord(Signed(a) / Pow2(b)))
    case LogicalEqual => Value(BoolWord(a == b))
    case LogicalNotEqual => Value(BoolWord(a != b))
    case IEqual => Value(BoolWord(a == b))
    case INotEqual => Value(BoolWord(a != b))
    case ULessThan => Value(BoolWord(a < b))
    case ULessThanEqual => Value(BoolWord(a <= b))
    case UGreaterThan => Value(BoolWord(a > b))
    case UGreaterThanEqual => Value(BoolWord(a >= b))
    case SLessThan => Value(BoolWord(Signed(a) < Signed(b)))
    case SLessThanEqual => Value(BoolWord(Signed(a) <= Signed(b)))
    case SGreaterThan => Value(BoolWord(Signed(a) > Signed(b)))
    case SGreaterThanEqual => Value(BoolWord(Signed(a) >= Signed(b)))
    case UMod => if b == 0 then Error else Value(a % b)
    case UDiv => if b == 0 then Error else Value(ToWord(a / b))
    case SRem =>
      if b == 0 then Error
      else if Overflows(a, b) then Undefined
      else Value(ToWord(TruncatedRem(Signed(a), Signed(b))))
    case SMod =>
      if b == 0 then Error
      else if Overflows(a, b) then Undefined
      else
        var v := TruncatedRem(Signed(a), Signed(b));
        Value(ToWord(if (Signed(b) < 0 && v > 0) || (Signed(b) > 0 && v < 0) then v + Signed(b) else v))
    case SDiv =>
      if b == 0 then Error
      else if Overflows(a, b) then Undefined
      else Value(ToWord(TruncatedDiv(Signed(a), Signed(b))))
    case _ => Error
  }

  // The quotient of the least number and -1 does not fit in a word.
  predicate Overflows(a: Word, b: Word) {
    Signed(a) == -HALF && Signed(b) == -1
  }

  // ---- What the operations mean ----

  ghost predicate Bit(x: nat, i: nat) {
    (x / Pow2(i)) % 2 == 1
  }

  ghost predicate Congruent(x: int, y: int) {
    exists k: int :: x == y + k * UINT_LIMIT
  }

  // r is the remainder of a by b for the quotient q.
  ghost predicate IsDivision(a: int, b: int, q: int, r: int) {
    a == b * q + r && -(if b < 0 then -b else b) < r < (if b < 0 then -b else b)
  }

  ghost predicate SameSign(x: int, y: int) {
    x == 0 || (x < 0 <==> y < 0)
  }

  ghost predicate Meets(op: Op, a: Word, b: Word, r: Word) {
    match op
    case IAdd => Congruent(Signed(r), Signed(a) + Signed(b))
    case ISub => Congruent(Signed(r), Signed(a) - Signed(b))
    case IMul => Congruent(Signed(r), Signed(a) * Signed(b))
    case BitwiseAnd => forall i :: 0 <= i < 32 ==> (Bit(r, i) <==> Bit(a, i) && Bit(b, i))
    case BitwiseOr => forall i :: 0 <= i < 32 ==> (Bit(r, i) <==> Bit(a, i) || Bit(b, i))
    case BitwiseXor => forall i :: 0 <= i < 32 ==> (Bit(r, i) <==> Bit(a, i) != Bit(b, i))
    case LogicalAnd => forall i :: 0 <= i < 32 ==> (Bit(r, i) <==> Bit(a, i) && Bit(b, i))
    case LogicalOr => forall i :: 0 <= i < 32 ==> (Bit(r, i) <==> Bit(a, i) || Bit(b, i))
    case ShiftLeftLogical => b < 32 && Congruent(r, a * Pow2(b))
    case ShiftRightLogical => b < 32 && r * Pow2(b) <= a < (r + 1) * Pow2(b)
    case ShiftRightArithmetic => b < 32 && Signed(r) * Pow2(b) <= Signed(a) < (Signed(r) + 1) * Pow2(b)
    case LogicalEqual => r <= 1 && (r == 1 <==> a == b)
    case LogicalNotEqual => r <= 1 && (r == 1 <==> a != b)
    case IEqual => r <= 1 && (r == 1 <==> Signed(a) == Signed(b))
    case INotEqual => r <= 1 && (r == 1 <==> Signed(a) != Signed(b))
    case ULessThan => r <= 1 && (r == 1 <==> a < b)
    case ULessThanEqual => r <= 1 && (r == 1 <==> a <= b)
    case UGreaterThan => r <= 1 && (r == 1 <==> b < a)
    case UGreaterThanEqual => r <= 1 && (r == 1 <==> b <= a)
    case SLessThan => r <= 1 && (r == 1 <==> Signed(a) < Signed(b))
    case SLessThanEqual => r <= 1 && (r == 1 <==> Signed(a) <= Signed(b))
    case SGreaterThan => r <= 1 && (r == 1 <==> Signed(b) < Signed(a))
    case SGreaterThanEqual => r <= 1 && (r == 1 <==> Signed(b) <= Signed(a))
    case UDiv => exists rest: nat :: IsDivision(a, b, r, rest)
    case UMod => exists q: nat :: IsDivision(a, b, q, r)
    // towards zero: what remains has the sign of the dividend
    case SDiv => exists rest: int :: IsDivision(Signed(a), Signed(b), Signed(r), rest) && SameSign(rest, Signed(a))
    case SRem =>
      && !(a == HALF && b == UINT_LIMIT - 1) && SameSign(Signed(r), Signed(a))
      && exists q: int :: IsDivision(Signed(a), Signed(b), q, Signed(r))
    // towards minus infinity: it has the sign of the divisor
    case SMod =>
      && !(a == HALF && b == UINT_LIMIT - 1) && SameSign(Signed(r), Signed(b))
      && exists q: int :: IsDivision(Signed(a), Signed(b), q, Signed(r))
    case _ => false
  }

  ghost predicate MeetsUnary(op: Op, a: Word, r: Word) {
    match op
    case LogicalNot => r <= 1 && (r == 1 <==> a == 0)
    case Not => forall i :: 0 <= i < 32 ==> (Bit(r, i) <==> !Bit(a, i))
    case SNegate => Signed(r) == -Signed(a)
    case _ => false
  }

  // ---- Congruence ----

  lemma CongruentUnique(x: Word, y: Word, z: int)
    requires Congruent(x, z) && Congruent(y, z)
    ensures x == y
  {}

  lemma SignedIsCongruent(x: Word)
    ensures Congruent(Signed(x), x)
  {
    assert Signed(x) == x + (if x < HALF then 0 else -1) * UINT_LIMIT;
  }

  lemma CongruentTransitive(x: int, y: int, z: int)
    requires Congruent(x, y) && Congruent(y, z)
    ensures Congruent(x, z)
  {
    var k: int :| x == y + k * UINT_LIMIT;
    var l: int :| y == z + l * UINT_LIMIT;
    assert x == z + (k + l) * UINT_LIMIT;
  }

  lemma CongruentSymmetric(x: int, y: int)
    requires Congruent(x, y)
    ensures Congruent(y, x)
  {
    var k: int :| x == y + k * UINT_LIMIT;
    assert y == x + (-k) * UINT_LIMIT;
  }

  lemma ToWordIsCongruent(x: int)
    ensures Congruent(ToWord(x), x)
  {
    assert ToWord(x) == x + (-(x / UINT_LIMIT)) * UINT_LIMIT;
  }

  // A word is the sum of a number iff its signed reading is.
  lemma WordOf(r: Word, x: int)
    ensures Congruent(Signed(r), x) <==> r == ToWord(x)
  {
    SignedIsCongruent(r);
    ToWordIsCongruent(x);
    if Congruent(Signed(r), x) {
      CongruentSymmetric(Signed(r), r);
      CongruentTransitive(r, Signed(r), x);
      CongruentUnique(r, ToWord(x), x);
    }
    if r == ToWord(x) {
      CongruentTransitive(Signed(r), r, x);
    }
  }

  lemma ToWordSame(x: int, y: int)
    requires Congruent(x, y)
    ensures ToWord(x) == ToWord(y)
  {}

  lemma SumsAgree(a: Word, b: Word)
    ensures ToWord(a + b) == ToWord(Signed(a) + Signed(b))
    ensures ToWord(a - b) == ToWord(Signed(a) - Signed(b))
    ensures ToWord(a * b) == ToWord(Signed(a) * Signed(b))
  {
    var i, j := if a < HALF then 0 else -1, if b < HALF then 0 else -1;
    var x, y := Signed(a), Signed(b);
    assert x == a + i * UINT_LIMIT && y == b + j * UINT_LIMIT;
    assert x + y == (a + b) + (i + j) * UINT_LIMIT;
    ToWordSame(x + y, a + b);
    assert x - y == (a - b) + (i - j) * UINT_LIMIT;
    ToWordSame(x - y, a - b);
    assert x * y == a * b + (a * j + b * i + i * j * UINT_LIMIT) * UINT_LIMIT by {
      ProductOfSums(a, b, i, j, UINT_LIMIT);
    }
    ToWordSame(x * y, a * b);
  }

  lemma ProductOfSums(a: int, b: int, i: int, j: int, w: int)
    ensures (a + i * w) * (b + j * w) == a * b + (a * j + b * i + i * j * w) * w
  {}

  // ---- Bits ----

  lemma BitStep(x: nat, i: nat)
    requires i > 0
    ensures Bit(x, i) <==> Bit(x / 2, i - 1)
  {
    DivideTwice(x, 2, Pow2(i - 1));
  }

  lemma DivideTwice(x: nat, a: nat, b: nat)
    requires a > 0 && b > 0
    ensures a * b > 0 && x / (a * b) == (x / a) / b
  {
    Positive(a, b);
    var q := (x / a) / b;
    var r := (x / a) % b;
    assert x == a * (x / a) + x % a;
    assert x / a == b * q + r;
    assert a * (x / a) == (a * b) * q + a * r by {
      assert a * (b * q + r) == (a * b) * q + a * r;
    }
    assert a * r + x % a < a * b by {
      assert r + 1 <= b;
      MulMonotone(a, r + 1, b);
      assert a * (r + 1) == a * r + a;
    }
    QuotientUnique(x, a * b, q, a * r + x % a);
  }

  lemma Positive(a: int, b: int)
    requires a > 0 && b > 0
    ensures a * b > 0
  {}

  lemma QuotientUnique(x: int, d: int, q: int, r: int)
    requires d > 0 && x == d * q + r && 0 <= r < d
    ensures x / d == q && x % d == r
  {
    var p, t := x / d, x % d;
    assert d * (p - q) == r - t;
    if p > q {
      MulMonotone(d, 1, p - q);
    } else if p < q {
      MulMonotone(d, p - q, -1);
    }
  }

  lemma {:induction false} BitwiseBits(f: (bool, bool) -> bool, a: nat, b: nat, n: nat, i: nat)
    requires i < n
    ensures Bit(Bitwise(f, a, b, n), i) <==> f(Bit(a, i), Bit(b, i))
    decreases n
  {
    var r := Bitwise(f, a, b, n);
    assert r / 2 == Bitwise(f, a / 2, b / 2, n - 1);
    if i == 0 {
      assert Pow2(0) == 1 && r / 1 == r && a / 1 == a && b / 1 == b;
    } else {
      BitStep(r, i);
      BitStep(a, i);
      BitStep(b, i);
      BitwiseBits(f, a / 2, b / 2, n - 1, i - 1);
    }
  }

  lemma {:induction false} BitsDetermine(x: nat, y: nat, n: nat)
    requires x < Pow2(n) && y < Pow2(n) && forall i :: 0 <= i < n ==> (Bit(x, i) <==> Bit(y, i))
    ensures x == y
    decreases n
  {
    if n > 0 {
      forall i | 0 <= i < n - 1 ensures Bit(x / 2, i) <==> Bit(y / 2, i) {
        BitStep(x, i + 1);
        BitStep(y, i + 1);
      }
      BitsDetermine(x / 2, y / 2, n - 1);
      assert Bit(x, 0) <==> Bit(y, 0);
      assert Pow2(0) == 1 && x / 1 == x && y / 1 == y;
    }
  }

  lemma BitwiseMeets(f: (bool, bool) -> bool, a: Word, b: Word, r: Word)
    ensures r == BitwiseWord(f, a, b) <==> forall i :: 0 <= i < 32 ==> (Bit(r, i) <==> f(Bit(a, i), Bit(b, i)))
  {
    WordIsPow2();
    var w := BitwiseWord(f, a, b);
    forall i | 0 <= i < 32 ensures Bit(w, i) <==> f(Bit(a, i), Bit(b, i)) {
      BitwiseBits(f, a, b, 32, i);
    }
    if forall i :: 0 <= i < 32 ==> (Bit(r, i) <==> f(Bit(a, i), Bit(b, i))) {
      BitsDetermine(r, w, 32);
    }
  }

  // ---- Shifts and divisions ----

  lemma {:induction false} Pow2Bound(n: nat)
    requires n < 32
    ensures Pow2(n) <= HALF
    decreases 32 - n
  {
    WordIsPow2();
    if n < 31 {
      Pow2Bound(n + 1);
    } else {
      assert Pow2(32) == 2 * Pow2(31);
    }
  }

  lemma FloorMeets(a: int, d: int, q: int)
    requires d > 0
    ensures q * d <= a < (q + 1) * d <==> q == a / d
  {
    assert (q + 1) * d == d * q + d && q * d == d * q;
    if q * d <= a < (q + 1) * d {
      QuotientUnique(a, d, q, a - d * q);
    }
  }

  lemma FloorBound(a: int, d: int)
    requires d > 0
    ensures a >= 0 ==> 0 <= a / d <= a
    ensures a < 0 ==> a <= a / d < 0
  {
    var q := a / d;
    FloorMeets(a, d, q);
    if a >= 0 && q < 0 {
      MulMonotone(d, q + 1, 0);
    }
    if a >= 0 && q > a {
      MulMonotone(d, a + 1, q);
      MulMonotone(a + 1, 1, d);
    }
    if a < 0 && q >= 0 {
      MulMonotone(d, 0, q);
    }
    if a < 0 && q < a {
      MulMonotone(d, q + 1, a);
      MulMonotone(-a, 1, d);
    }
  }

  // A number in the signed range is the signed reading of its word.
  lemma SignedOfWord(r: Word, x: int)
    requires -HALF <= x < HALF
    ensures r == ToWord(x) <==> Signed(r) == x
  {}

  lemma AbsQuotient(a: int, b: int)
    requires b != 0
    ensures var q := TruncatedDiv(a, b); var r := TruncatedRem(a, b);
            IsDivision(a, b, q, r) && SameSign(r, a)
  {}

  // Two divisions whose remainders have the same sign are one.
  lemma DivisionUnique(a: int, b: int, q: int, r: int, p: int, t: int)
    requires b != 0 && IsDivision(a, b, q, r) && IsDivision(a, b, p, t)
    requires (r <= 0 && t <= 0) || (r >= 0 && t >= 0)
    ensures q == p && r == t
  {
    Distribute(b, q, p);
    Negate(b, q - p);
    var m := if b < 0 then -b else b;
    assert m * (q - p) == if b < 0 then r - t else t - r;
    if q > p {
      MulMonotone(m, 1, q - p);
    } else if q < p {
      MulMonotone(m, q - p, -1);
    }
  }

  lemma Distribute(b: int, q: int, p: int)
    ensures b * (q - p) == b * q - b * p
  {}

  lemma Negate(b: int, d: int)
    ensures (-b) * d == -(b * d)
  {}

  lemma QuotientNegative(m: int, b: int)
    requires b < 0
    ensures m / b == -(m / -b)
  {}

  lemma HalfBound(m: int, d: int)
    requires m >= 0 && d >= 2
    ensures 2 * (m / d) <= m
  {}

  lemma TruncatedBound(a: int, b: int)
    requires b != 0 && -HALF <= a < HALF && -HALF <= b < HALF && !(a == -HALF && b == -1)
    ensures -HALF <= TruncatedDiv(a, b) < HALF
    ensures -HALF <= TruncatedRem(a, b) < HALF
  {
    AbsQuotient(a, b);
    var m := if a < 0 then -a else a;
    if b > 0 {
      FloorBound(m, b);
    } else {
      FloorBound(m, -b);
      QuotientNegative(m, b);
      if b < -1 {
        HalfBound(m, -b);
      }
    }
  }

  // ---- The operations are exactly what they should be ----

  lemma ArithmeticMeets(op: Op, a: Word, b: Word, r: Word)
    requires op.IAdd? || op.ISub? || op.IMul?
    ensures ApplyBinary(op, a, b) == Value(r) <==> Meets(op, a, b, r)
  {
    SumsAgree(a, b);
    WordOf(r, Signed(a) + Signed(b));
    WordOf(r, Signed(a) - Signed(b));
    WordOf(r, Signed(a) * Signed(b));
  }

  lemma LogicMeets(op: Op, a: Word, b: Word, r: Word)
    requires op.BitwiseAnd? || op.BitwiseOr? || op.BitwiseXor? || op.LogicalAnd? || op.LogicalOr?
    ensures ApplyBinary(op, a, b) == Value(r) <==> Meets(op, a, b, r)
  {
    match op
    case BitwiseOr => BitwiseMeets((x, y) => x || y, a, b, r);
    case LogicalOr => BitwiseMeets((x, y) => x || y, a, b, r);
    case BitwiseXor => BitwiseMeets((x, y) => x != y, a, b, r);
    case _ => BitwiseMeets((x, y) => x && y, a, b, r);
  }

  lemma ShiftMeets(op: Op, a: Word, b: Word, r: Word)
    requires op.ShiftLeftLogical? || op.ShiftRightLogical? || op.ShiftRightArithmetic?
    ensures ApplyBinary(op, a, b) == Value(r) <==> Meets(op, a, b, r)
  {
    if b < 32 {
      var d := Pow2(b);
      match op
      case ShiftLeftLogical =>
        ToWordIsCongruent(a * d);
        if Congruent(r, a * d) {
          CongruentUnique(r, ToWord(a * d), a * d);
        }
      case ShiftRightLogical =>
        FloorBound(a, d);
        FloorMeets(a, d, r);
      case ShiftRightArithmetic =>
        FloorBound(Signed(a), d);
        FloorMeets(Signed(a), d, Signed(r));
        SignedOfWord(r, Signed(a) / d);
      case _ =>
    }
  }

  lemma DivisionOfWords(a: Word, b: Word)
    requires b != 0
    ensures IsDivision(a, b, a / b, a % b) && 0 <= a / b <= a && 0 <= a % b < b
    ensures forall q: nat, r: nat :: IsDivision(a, b, q, r) ==> q == a / b && r == a % b
  {
    FloorBound(a, b);
    forall q: nat, r: nat | IsDivision(a, b, q, r) ensures q == a / b && r == a % b {
      QuotientUnique(a, b, q, r);
    }
  }

  lemma UnsignedDivisionMeets(op: Op, a: Word, b: Word, r: Word)
    requires op.UDiv? || op.UMod?
    ensures ApplyBinary(op, a, b) == Value(r) <==> Meets(op, a, b, r)
  {
    if b != 0 {
      DivisionOfWords(a, b);
      WordStays(a / b);
      var q, rest := a / b, a % b;
      hide IsDivision;
      assert ApplyBinary(op, a, b) == Value(if op.UDiv? then q else rest);
      assert IsDivision(a, b, q, rest);
    }
  }

  lemma WordStays(x: int)
    requires 0 <= x < UINT_LIMIT
    ensures ToWord(x) == x
  {}

  lemma SignedQuotientMeets(a: Word, b: Word, r: Word)
    ensures ApplyBinary(SDiv, a, b) == Value(r) <==> Meets(SDiv, a, b, r)
  {
    var x, y := Signed(a), Signed(b);
    if b != 0 {
      AbsQuotient(x, y);
      if rest: int :| IsDivision(x, y, Signed(r), rest) && SameSign(rest, x) {
        DivisionUnique(x, y, Signed(r), rest, TruncatedDiv(x, y), TruncatedRem(x, y));
      }
      if !Overflows(a, b) {
        TruncatedBound(x, y);
        SignedOfWord(r, TruncatedDiv(x, y));
      }
    }
  }

  lemma SignedRemainderMeets(a: Word, b: Word, r: Word)
    ensures ApplyBinary(SRem, a, b) == Value(r) <==> Meets(SRem, a, b, r)
  {
    var x, y := Signed(a), Signed(b);
    if b != 0 && !Overflows(a, b) {
      AbsQuotient(x, y);
      TruncatedBound(x, y);
      SignedOfWord(r, TruncatedRem(x, y));
      if q: int :| IsDivision(x, y, q, Signed(r)) && SameSign(Signed(r), x) {
        DivisionUnique(x, y, q, Signed(r), TruncatedDiv(x, y), TruncatedRem(x, y));
      }
    }
  }

  // Adjusting the remainder by one divisor gives the one with the divisor's sign.
  ghost function FloorRemainder(x: int, y: int): int
    requires y != 0
  {
    var v := TruncatedRem(x, y);
    if (y < 0 && v > 0) || (y > 0 && v < 0) then v + y else v
  }

  lemma FloorRemainderMeets(x: int, y: int) returns (q: int)
    requires y != 0
    ensures IsDivision(x, y, q, FloorRemainder(x, y)) && SameSign(FloorRemainder(x, y), y)
  {
    AbsQuotient(x, y);
    var v := TruncatedRem(x, y);
    q := TruncatedDiv(x, y);
    if (y < 0 && v > 0) || (y > 0 && v < 0) {
      assert y * (q - 1) == y * q - y;
      q := q - 1;
    }
  }

  lemma SignedModuloMeets(a: Word, b: Word, r: Word)
    ensures ApplyBinary(SMod, a, b) == Value(r) <==> Meets(SMod, a, b, r)
  {
    var x, y := Signed(a), Signed(b);
    if b != 0 && !Overflows(a, b) {
      var p := FloorRemainderMeets(x, y);
      SignedOfWord(r, FloorRemainder(x, y));
      if q: int :| IsDivision(x, y, q, Signed(r)) && SameSign(Signed(r), y) {
        DivisionUnique(x, y, q, Signed(r), p, FloorRemainder(x, y));
      }
    }
  }

  lemma BinaryMeets(op: Op, a: Word, b: Word, r: Word)
    ensures ApplyBinary(op, a, b) == Value(r) <==> Meets(op, a, b, r)
  {
    match op
    case IAdd => ArithmeticMeets(op, a, b, r);
    case ISub => ArithmeticMeets(op, a, b, r);
    case IMul => ArithmeticMeets(op, a, b, r);
    case BitwiseAnd => LogicMeets(op, a, b, r);
    case BitwiseOr => LogicMeets(op, a, b, r);
    case BitwiseXor => LogicMeets(op, a, b, r);
    case LogicalAnd => LogicMeets(op, a, b, r);
    case LogicalOr => LogicMeets(op, a, b, r);
    case ShiftLeftLogical => ShiftMeets(op, a, b, r);
    case ShiftRightLogical => ShiftMeets(op, a, b, r);
    case ShiftRightArithmetic => ShiftMeets(op, a, b, r);
    case UDiv => UnsignedDivisionMeets(op, a, b, r);
    case UMod => UnsignedDivisionMeets(op, a, b, r);
    case SDiv => SignedQuotientMeets(a, b, r);
    case SRem => SignedRemainderMeets(a, b, r);
    case SMod => SignedModuloMeets(a, b, r);
    case _ =>
  }

  lemma UnaryMeets(op: Op, a: Word, r: Word)
    ensures ApplyUnary(op, a) == Value(r) <==> MeetsUnary(op, a, r)
  {
    match op
    case Not => ComplementMeets(a, r);
    case SNegate =>
      if Signed(a) != -HALF {
        SignedOfWord(r, -Signed(a));
      }
    case _ =>
  }

  lemma {:induction false} ComplementBits(a: nat, n: nat, i: nat)
    requires i < n && a < Pow2(n)
    ensures Bit(Pow2(n) - 1 - a, i) <==> !Bit(a, i)
    decreases n
  {
    var r := Pow2(n) - 1 - a;
    assert r == 2 * (Pow2(n - 1) - 1 - a / 2) + (1 - a % 2);
    if i == 0 {
      assert Pow2(0) == 1 && r / 1 == r && a / 1 == a;
    } else {
      BitStep(r, i);
      BitStep(a, i);
      assert r / 2 == Pow2(n - 1) - 1 - a / 2;
      ComplementBits(a / 2, n - 1, i - 1);
    }
  }

  lemma ComplementMeets(a: Word, r: Word)
    ensures r == UINT_LIMIT - 1 - a <==> forall i :: 0 <= i < 32 ==> (Bit(r, i) <==> !Bit(a, i))
  {
    WordIsPow2();
    var w := UINT_LIMIT - 1 - a;
    forall i | 0 <= i < 32 ensures Bit(w, i) <==> !Bit(a, i) {
      ComplementBits(a, 32, i);
    }
    if forall i :: 0 <= i < 32 ==> (Bit(r, i) <==> !Bit(a, i)) {
      BitsDetermine(r, w, 32);
    }
  }

  // ---- Expressions ----

  type Table = map<nat, Node>

  function Arity(op: Op): nat {
    match op
    case LogicalNot => 1
    case Not => 1
    case SNegate => 1
    case Select => 3
    case Unsupported => 0
    case _ => 2
  }

  // Expressions refer to entries of lower rank, as many as their operation takes. What an
  // unsupported operation takes does not matter.
  ghost predicate Acyclic(t: Table, rank: map<nat, nat>) {
    && rank.Keys == t.Keys
    && forall id :: id in t && t[id].Expression? ==> ArgumentsDescend(t, rank, id)
  }

  ghost predicate ArgumentsDescend(t: Table, rank: map<nat, nat>, id: nat)
    requires id in t && id in rank && t[id].Expression?
  {
    t[id].op != Unsupported ==>
      && |t[id].args| == Arity(t[id].op)
      && forall i :: 0 <= i < |t[id].args| ==>
           t[id].args[i] in t && t[id].args[i] in rank && rank[t[id].args[i]] < rank[id]
  }

  function EvaluateSpecConstant(t: Table, ghost rank: map<nat, nat>, id: nat): Result
    requires Acyclic(t, rank) && id in t && t[id].Expression?
    decreases rank[id], 0
  {
    assert ArgumentsDescend(t, rank, id);
    var op, args := t[id].op, t[id].args;
    if !Evaluable(t[id].ty) then Error
    else match op
      case Unsupported => Error
      case Select =>
        var first := EvaluateOperand(t, rank, args[0]);
        if !first.Value? then first
        else if first.value != 0 then EvaluateOperand(t, rank, args[1])
        else EvaluateOperand(t, rank, args[2])
      case LogicalNot | Not | SNegate =>
        var first := EvaluateOperand(t, rank, args[0]);
        if !first.Value? then first else ApplyUnary(op, first.value)
      case _ =>
        var first := EvaluateOperand(t, rank, args[0]);
        if !first.Value? then first
        else
          var second := EvaluateOperand(t, rank, args[1]);
          if !second.Value? then second else ApplyBinary(op, first.value, second.value)
  }

  function EvaluateOperand(t: Table, ghost rank: map<nat, nat>, id: nat): Result
    requires Acyclic(t, rank) && id in t
    decreases rank[id], 1
  {
    if !Evaluable(t[id].ty) then Error
    else if t[id].Constant? then Value(t[id].value)
    else EvaluateSpecConstant(t, rank, id)
  }

  // v is the value of the expression: every operation in it that is needed has operand
  // values that meet its meaning.
  // The types whose values are words.
  ghost predicate HoldsWord(t: Type) {
    t.scalar && t.kind in {UInt, Int, Boolean}
  }

  ghost predicate Means(t: Table, rank: map<nat, nat>, id: nat, v: Word)
    requires Acyclic(t, rank) && id in t
    decreases rank[id]
  {
    HoldsWord(t[id].ty) && (
      match t[id]
      case Constant(_, value) => v == value
      case Expression(_, op, args) =>
        assert ArgumentsDescend(t, rank, id);
        if op == Unsupported then false
        else if op == LogicalNot || op == Not || op == SNegate then
          exists a: Word :: Means(t, rank, args[0], a) && MeetsUnary(op, a, v)
        else if op == Select then
          exists a: Word :: Means(t, rank, args[0], a) && Means(t, rank, args[if a != 0 then 1 else 2], v)
        else
          exists a: Word, b: Word :: Means(t, rank, args[0], a) && Means(t, rank, args[1], b) && Meets(op, a, b, v))
  }

  // An operand evaluates to what it means.
  ghost predicate OperandOk(t: Table, rank: map<nat, nat>, id: nat)
    requires Acyclic(t, rank) && id in t
  {
    forall w: Word :: EvaluateOperand(t, rank, id) == Value(w) <==> Means(t, rank, id, w)
  }

  lemma UnaryMeans(t: Table, rank: map<nat, nat>, id: nat, v: Word)
    requires Acyclic(t, rank) && id in t && t[id].Expression? && Evaluable(t[id].ty) && Arity(t[id].op) == 1
    requires ArgumentsDescend(t, rank, id) && OperandOk(t, rank, t[id].args[0])
    ensures EvaluateOperand(t, rank, id) == Value(v) <==> Means(t, rank, id, v)
  {
    hide Meets, MeetsUnary, ApplyBinary, ApplyUnary, Acyclic;
    var op, first := t[id].op, EvaluateOperand(t, rank, t[id].args[0]);
    forall a: Word ensures ApplyUnary(op, a) == Value(v) <==> MeetsUnary(op, a, v) {
      UnaryMeets(op, a, v);
    }
    if first.Value? {
      assert Means(t, rank, t[id].args[0], first.value);
    }
  }

  ghost predicate IsBinary(op: Op) {
    op != LogicalNot && op != Not && op != SNegate && op != Select && op != Unsupported
  }

  lemma MeansOfBinary(t: Table, rank: map<nat, nat>, id: nat, v: Word)
    requires Acyclic(t, rank) && id in t && t[id].Expression? && Evaluable(t[id].ty) && IsBinary(t[id].op)
    requires ArgumentsDescend(t, rank, id)
    ensures Means(t, rank, id, v) <==>
              exists a: Word, b: Word ::
                Means(t, rank, t[id].args[0], a) && Means(t, rank, t[id].args[1], b) && Meets(t[id].op, a, b, v)
  {
    hide Meets, MeetsUnary, Acyclic;
  }

  lemma EvaluationOfBinary(t: Table, rank: map<nat, nat>, id: nat)
    requires Acyclic(t, rank) && id in t && t[id].Expression? && Evaluable(t[id].ty) && IsBinary(t[id].op)
    requires ArgumentsDescend(t, rank, id)
    ensures EvaluateOperand(t, rank, id) ==
            var first := EvaluateOperand(t, rank, t[id].args[0]);
            var second := EvaluateOperand(t, rank, t[id].args[1]);
            if !first.Value? then first
            else if !second.Value? then second
            else ApplyBinary(t[id].op, first.value, second.value)
  {
    hide ApplyBinary, ApplyUnary, Acyclic;
  }

  lemma BinaryMeans(t: Table, rank: map<nat, nat>, id: nat, v: Word)
    requires Acyclic(t, rank) && id in t && t[id].Expression? && Evaluable(t[id].ty) && IsBinary(t[id].op)
    requires ArgumentsDescend(t, rank, id)
    requires OperandOk(t, rank, t[id].args[0]) && OperandOk(t, rank, t[id].args[1])
    ensures EvaluateOperand(t, rank, id) == Value(v) <==> Means(t, rank, id, v)
  {
    hide Meets, MeetsUnary, ApplyBinary, ApplyUnary, Acyclic, Means, EvaluateOperand;
    var op, args := t[id].op, t[id].args;
    MeansOfBinary(t, rank, id, v);
    EvaluationOfBinary(t, rank, id);
    var first, second := EvaluateOperand(t, rank, args[0]), EvaluateOperand(t, rank, args[1]);
    if first.Value? && second.Value? {
      assert Means(t, rank, args[0], first.value) && Means(t, rank, args[1], second.value);
      BinaryMeets(op, first.value, second.value, v);
    }
    if a: Word, b: Word :| Means(t, rank, args[0], a) && Means(t, rank, args[1], b) && Meets(op, a, b, v) {
      assert first == Value(a) && second == Value(b);
    }
  }

  lemma SelectMeans(t: Table, rank: map<nat, nat>, id: nat, v: Word)
    requires Acyclic(t, rank) && id in t && t[id].Expression? && Evaluable(t[id].ty) && t[id].op == Select
    requires ArgumentsDescend(t, rank, id) && forall i :: 0 <= i < 3 ==> OperandOk(t, rank, t[id].args[i])
    ensures EvaluateOperand(t, rank, id) == Value(v) <==> Means(t, rank, id, v)
  {
    hide Meets, MeetsUnary, ApplyBinary, ApplyUnary, Acyclic;
    var args := t[id].args;
    assert OperandOk(t, rank, args[0]) && OperandOk(t, rank, args[1]) && OperandOk(t, rank, args[2]);
    var first := EvaluateOperand(t, rank, args[0]);
    if first.Value? {
      assert Means(t, rank, args[0], first.value);
      assert EvaluateOperand(t, rank, args[if first.value != 0 then 1 else 2]) == Value(v)
        <==> Means(t, rank, args[if first.value != 0 then 1 else 2], v);
    }
  }

  // The evaluator returns a value exactly when the expression has that value.
  lemma {:induction false} EvaluationMeans(t: Table, rank: map<nat, nat>, id: nat, v: Word)
    requires Acyclic(t, rank) && id in t
    ensures EvaluateOperand(t, rank, id) == Value(v) <==> Means(t, rank, id, v)
    decreases rank[id]
  {
    if t[id].Expression? && Evaluable(t[id].ty) && t[id].op != Unsupported {
      assert ArgumentsDescend(t, rank, id);
      var op, args := t[id].op, t[id].args;
      forall i | 0 <= i < |args| ensures OperandOk(t, rank, args[i]) {
        forall w: Word ensures EvaluateOperand(t, rank, args[i]) == Value(w) <==> Means(t, rank, args[i], w) {
          EvaluationMeans(t, rank, args[i], w);
        }
      }
      match Arity(op)
      case 1 => UnaryMeans(t, rank, id, v);
      case 2 => BinaryMeans(t, rank, id, v);
      case _ => SelectMeans(t, rank, id, v);
    }
  }

  // ---- Errors ----

  ghost predicate IsDivisionOp(op: Op) {
    op in {UDiv, UMod, SDiv, SRem, SMod}
  }

  // A zero divisor is an error; what C++ leaves undefined are shifts by more than the width
  // and the one signed division that does not fit. Every other binary operation has a value.
  lemma BinaryOutcomes(op: Op, a: Word, b: Word)
    requires IsBinary(op)
    ensures ApplyBinary(op, a, b) == Error <==> IsDivisionOp(op) && b == 0
    ensures ApplyBinary(op, a, b) == Undefined <==>
              || (op in {ShiftLeftLogical, ShiftRightLogical, ShiftRightArithmetic} && b >= 32)
              || (op in {SDiv, SRem, SMod} && a == HALF && b == UINT_LIMIT - 1)
  {
    hide Bitwise, BitwiseWord, TruncatedDiv, TruncatedRem;
  }

  lemma UnaryOutcomes(op: Op, a: Word)
    requires op in {LogicalNot, Not, SNegate}
    ensures ApplyUnary(op, a) != Error && (ApplyUnary(op, a) == Undefined <==> op == SNegate && a == HALF)
  {}

  // A division by an expression that is zero is an error.
  lemma ZeroDivisorIsError(t: Table, rank: map<nat, nat>, id: nat, a: Word)
    requires Acyclic(t, rank) && id in t && t[id].Expression? && HoldsWord(t[id].ty) && IsDivisionOp(t[id].op)
    requires ArgumentsDescend(t, rank, id)
    requires Means(t, rank, t[id].args[0], a) && Means(t, rank, t[id].args[1], 0)
    ensures EvaluateOperand(t, rank, id) == Error
  {
    hide Means, ApplyUnary, ApplyBinary;
    EvaluationMeans(t, rank, t[id].args[0], a);
    EvaluationMeans(t, rank, t[id].args[1], 0);
    BinaryOutcomes(t[id].op, a, 0);
  }

  // ---- Booleans ----

  ghost predicate YieldsBoolean(op: Op) {
    match op
    case LogicalEqual => true case LogicalNotEqual => true case LogicalNot => true
    case IEqual => true case INotEqual => true
    case ULessThan => true case ULessThanEqual => true case UGreaterThan => true case UGreaterThanEqual => true
    case SLessThan => true case SLessThanEqual => true case SGreaterThan => true case SGreaterThanEqual => true
    case _ => false
  }

  ghost predicate IsBoolean(t: Table, id: nat) {
    id in t && t[id].ty.kind == Boolean
  }

  // Boolean constants are 0 or 1, and boolean expressions are built from booleans.
  ghost predicate BooleansTyped(t: Table, rank: map<nat, nat>)
    requires Acyclic(t, rank)
  {
    forall id :: IsBoolean(t, id) ==>
      match t[id]
      case Constant(_, value) => value <= 1
      case Expression(_, op, args) =>
        || YieldsBoolean(op)
        || ((op.LogicalAnd? || op.LogicalOr?) && |args| == 2 && IsBoolean(t, args[0]) && IsBoolean(t, args[1]))
        || (op.Select? && |args| == 3 && IsBoolean(t, args[1]) && IsBoolean(t, args[2]))
  }

  lemma {:induction false} BitwiseZero(f: (bool, bool) -> bool, n: nat)
    requires !f(false, false)
    ensures Bitwise(f, 0, 0, n) == 0
  {
    if n > 0 {
      BitwiseZero(f, n - 1);
    }
  }

  lemma BitwiseBoolean(f: (bool, bool) -> bool, a: Word, b: Word)
    requires !f(false, false) && a <= 1 && b <= 1
    ensures BitwiseWord(f, a, b) <= 1
  {
    BitwiseZero(f, 31);
    assert a / 2 == 0 && b / 2 == 0;
  }

  lemma BooleanResults(op: Op, a: Word, b: Word)
    requires YieldsBoolean(op) || ((op.LogicalAnd? || op.LogicalOr?) && a <= 1 && b <= 1)
    ensures Arity(op) == 1 && ApplyUnary(op, a).Value? ==> ApplyUnary(op, a).value <= 1
    ensures Arity(op) == 2 && ApplyBinary(op, a, b).Value? ==> ApplyBinary(op, a, b).value <= 1
  {
    hide Bitwise, BitwiseWord;
    if op.LogicalAnd? {
      BitwiseBoolean((x, y) => x && y, a, b);
    } else if op.LogicalOr? {
      BitwiseBoolean((x, y) => x || y, a, b);
    }
  }

  lemma {:induction false} BooleansStayBoolean(t: Table, rank: map<nat, nat>, id: nat)
    requires Acyclic(t, rank) && BooleansTyped(t, rank) && IsBoolean(t, id)
    ensures var r := EvaluateOperand(t, rank, id); r.Value? ==> r.value <= 1
    decreases rank[id]
  {
    hide ApplyUnary, ApplyBinary;
    if t[id].Expression? && t[id].op != Unsupported && Evaluable(t[id].ty) {
      assert ArgumentsDescend(t, rank, id);
      var op, args := t[id].op, t[id].args;
      var first := EvaluateOperand(t, rank, args[0]);
      if op.Select? {
        BooleansStayBoolean(t, rank, args[1]);
        BooleansStayBoolean(t, rank, args[2]);
      } else if Arity(op) == 1 {
        if first.Value? {
          BooleanResults(op, first.value, 0);
        }
      } else {
        if !YieldsBoolean(op) {
          BooleansStayBoolean(t, rank, args[0]);
          BooleansStayBoolean(t, rank, args[1]);
        }
        var second := EvaluateOperand(t, rank, args[1]);
        if first.Value? && second.Value? {
          BooleanResults(op, first.value, second.value);
        }
      }
    }
  }
}

/** mfbt/CheckedInt.h: integers of a fixed width that remember whether anything went wrong. */
module CheckedInts {
  import opened Options
  import opened PowersOfTwo

  /** An integer type of C++. */
  datatype IntType = IntType(bits: nat, signed: bool)

  /** The supported types have 8, 16, 32 or 64 bits. */
  predicate Supported(t: IntType) {
    t.bits == 8 || t.bits == 16 || t.bits == 32 || t.bits == 64
  }

  function Max(t: IntType): int
    requires Supported(t)
  {
    if t.signed then Pow2(t.bits - 1) - 1 else Pow2(t.bits) - 1
  }

  function Min(t: IntType): int
    requires Supported(t)
  {
    if t.signed then -(Pow2(t.bits - 1) as int) else 0
  }

  ghost predicate Fits(t: IntType, x: int)
    requires Supported(t)
  {
    Min(t) <= x <= Max(t)
  }

  /** The value converted to the unsigned type of the same size. */
  function Unsigned(t: IntType, x: int): (p: nat)
    requires Supported(t) && Fits(t, x)
    ensures p < Pow2(t.bits)
  {
    if x < 0 then x + Pow2(t.bits) else x
  }

  /** Unsigned addition and subtraction wrap around. */
  function WrapAdd(bits: nat, a: nat, b: nat): (r: nat)
    requires a < Pow2(bits) && b < Pow2(bits)
    ensures r < Pow2(bits)
  {
    if a + b < Pow2(bits) then a + b else a + b - Pow2(bits)
  }

  function WrapSub(bits: nat, a: nat, b: nat): (r: nat)
    requires a < Pow2(bits) && b < Pow2(bits)
    ensures r < Pow2(bits)
  {
    if a >= b then a - b else a - b + Pow2(bits)
  }

  function BitXor(a: nat, b: nat): nat {
    if a == 0 then b else if b == 0 then a else 2 * BitXor(a / 2, b / 2) + (a % 2 + b % 2) % 2
  }

  function BinaryComplement(bits: nat, a: nat): nat
    requires a < Pow2(bits)
  {
    Pow2(bits) - 1 - a
  }

  function HasSignBit(bits: nat, a: nat): bool
    requires bits > 0
  {
    a / Pow2(bits - 1) != 0
  }

  lemma SignBitIs(bits: nat, a: nat)
    requires bits > 0 && a < Pow2(bits)
    ensures HasSignBit(bits, a) <==> a >= Pow2(bits - 1)
  {
    QuotientIs(a, Pow2(bits - 1));
  }

  lemma QuotientIs(a: nat, h: nat)
    requires 0 < h && a < 2 * h
    ensures a / h == if a >= h then 1 else 0
  {
  }

  lemma Halves(bits: nat, a: nat)
    requires bits > 1
    ensures a < Pow2(bits) <==> a / 2 < Pow2(bits - 1)
    ensures a >= Pow2(bits - 1) <==> a / 2 >= Pow2(bits - 2)
  {
    assert Pow2(bits) == 2 * Pow2(bits - 1) && Pow2(bits - 1) == 2 * Pow2(bits - 2);
  }

  /** The highest bit of the result depends on the highest bits of the operands alone. */
  lemma {:induction false} XorTop(bits: nat, a: nat, b: nat)
    requires bits > 0 && a < Pow2(bits) && b < Pow2(bits)
    ensures BitXor(a, b) < Pow2(bits)
    ensures BitXor(a, b) >= Pow2(bits - 1) <==> (a >= Pow2(bits - 1)) != (b >= Pow2(bits - 1))
  {
    if bits == 1 {
      assert Pow2(0) == 1 && Pow2(1) == 2;
      assert BitXor(1, 1) == 2 * BitXor(0, 0);
    } else if a != 0 && b != 0 {
      hide Pow2;
      Halves(bits, a);
      Halves(bits, b);
      Halves(bits, BitXor(a, b));
      XorTop(bits - 1, a / 2, b / 2);
    }
  }

  lemma {:induction false} AndTop(bits: nat, a: nat, b: nat)
    requires bits > 0 && a < Pow2(bits) && b < Pow2(bits)
    ensures BitAnd(a, b) < Pow2(bits)
    ensures BitAnd(a, b) >= Pow2(bits - 1) <==> a >= Pow2(bits - 1) && b >= Pow2(bits - 1)
  {
    if bits == 1 {
      assert Pow2(0) == 1 && Pow2(1) == 2;
      assert BitAnd(1, 1) == 2 * BitAnd(0, 0) + 1;
    } else if a != 0 && b != 0 {
      hide Pow2;
      Halves(bits, a);
      Halves(bits, b);
      Halves(bits, BitAnd(a, b));
      AndTop(bits - 1, a / 2, b / 2);
    }
  }

  /** The sign of the sum is compared with the signs of the operands, bit by bit; for an unsigned
      type there is room above the one operand for the other. */
  function IsAddValid(t: IntType, x: int, y: int): bool
    requires Supported(t) && Fits(t, x) && Fits(t, y)
  {
    var ux, uy := Unsigned(t, x), Unsigned(t, y);
    var result := WrapAdd(t.bits, ux, uy);
    if t.signed then
      XorTop(t.bits, result, ux);
      XorTop(t.bits, result, uy);
      AndTop(t.bits, BitXor(result, ux), BitXor(result, uy));
      HasSignBit(t.bits, BinaryComplement(t.bits, BitAnd(BitXor(result, ux), BitXor(result, uy))))
    else BinaryComplement(t.bits, ux) >= uy
  }

  function IsSubValid(t: IntType, x: int, y: int): bool
    requires Supported(t) && Fits(t, x) && Fits(t, y)
  {
    var ux, uy := Unsigned(t, x), Unsigned(t, y);
    var result := WrapSub(t.bits, ux, uy);
    if t.signed then
      XorTop(t.bits, result, ux);
      XorTop(t.bits, ux, uy);
      AndTop(t.bits, BitXor(result, ux), BitXor(ux, uy));
      HasSignBit(t.bits, BinaryComplement(t.bits, BitAnd(BitXor(result, ux), BitXor(ux, uy))))
    else x >= y
  }

  lemma ComplementSign(bits: nat, a: nat)
    requires bits > 0 && a < Pow2(bits)
    ensures HasSignBit(bits, BinaryComplement(bits, a)) <==> a < Pow2(bits - 1)
  {
    SignBitIs(bits, BinaryComplement(bits, a));
  }

  /** The bit tricks agree with exact arithmetic. */
  lemma AddValidIff(t: IntType, x: int, y: int)
    requires Supported(t) && Fits(t, x) && Fits(t, y)
    ensures IsAddValid(t, x, y) <==> Fits(t, x + y)
  {
    hide BitXor;
    hide BitAnd;
    hide HasSignBit;
    if t.signed {
      var ux, uy := Unsigned(t, x), Unsigned(t, y);
      var r := WrapAdd(t.bits, ux, uy);
      XorTop(t.bits, r, ux);
      XorTop(t.bits, r, uy);
      AndTop(t.bits, BitXor(r, ux), BitXor(r, uy));
      ComplementSign(t.bits, BitAnd(BitXor(r, ux), BitXor(r, uy)));
    }
  }

  lemma SubValidIff(t: IntType, x: int, y: int)
    requires Supported(t) && Fits(t, x) && Fits(t, y)
    ensures IsSubValid(t, x, y) <==> Fits(t, x - y)
  {
    hide BitXor;
    hide BitAnd;
    hide HasSignBit;
    if t.signed {
      var ux, uy := Unsigned(t, x), Unsigned(t, y);
      var r := WrapSub(t.bits, ux, uy);
      XorTop(t.bits, r, ux);
      XorTop(t.bits, ux, uy);
      AndTop(t.bits, BitXor(r, ux), BitXor(ux, uy));
      ComplementSign(t.bits, BitAnd(BitXor(r, ux), BitXor(ux, uy)));
    }
  }

  /** One type can hold all values of another. */
  predicate DoesRangeContainRange(t: IntType, u: IntType) {
    if t.signed == u.signed then t.bits >= u.bits else t.signed && t.bits > u.bits
  }

  /** A value converted to another type: what is left of it in so many bits. */
  function Convert(u: IntType, x: int): (r: int)
    requires Supported(u)
    ensures Fits(u, r)
    ensures Fits(u, x) ==> r == x
  {
    Remainder(x, Pow2(u.bits));
    var p := x % Pow2(u.bits);
    if u.signed && p >= Pow2(u.bits - 1) then p - Pow2(u.bits) else p
  }

  /** It differs from the value by a multiple of what so many bits can tell apart. */
  lemma ConvertCongruent(u: IntType, x: int)
    requires Supported(u)
    ensures (x - Convert(u, x)) % Pow2(u.bits) == 0
  {
    hide Pow2;
    var m := Pow2(u.bits);
    var k := x / m;
    assert x == k * m + x % m;
    if Convert(u, x) == x % m {
      DividedOneWay(x - Convert(u, x), m, k, 0);
    } else {
      assert (k + 1) * m == k * m + m;
      DividedOneWay(x - Convert(u, x), m, k + 1, 0);
    }
  }

  lemma Remainder(x: int, m: nat)
    requires m > 0
    ensures 0 <= x % m < m
    ensures 0 <= x < m ==> x % m == x
    ensures x < 0 && 0 < x + m ==> x % m == x + m
  {
    if x < 0 && 0 < x + m {
      assert x == (x / m) * m + x % m;
      var k := x / m + 1;
      assert k * m == x + m - x % m;
      Spread(k, m);
    }
  }

  /** Whether a value of the type u is one of the type t. */
  function IsInRange(t: IntType, u: IntType, x: int): bool
    requires Supported(t) && Supported(u)
  {
    if DoesRangeContainRange(t, u) then true
    else if t.signed && u.signed then Min(t) <= x <= Max(t)
    else if !t.signed && !u.signed then x <= Max(t)
    else if t.signed then t.bits > u.bits || x <= Convert(u, Max(t))
    else if t.bits >= u.bits then x >= 0
    else x >= 0 && x <= Convert(u, Max(t))
  }

  lemma WidthsGrow(t: IntType, u: IntType)
    requires Supported(t) && Supported(u)
    ensures t.bits <= u.bits ==> Pow2(t.bits) <= Pow2(u.bits) && Pow2(t.bits - 1) <= Pow2(u.bits - 1)
    ensures t.bits < u.bits ==> Pow2(t.bits) <= Pow2(u.bits - 1)
  {
    if t.bits <= u.bits {
      Pow2Grows(t.bits, u.bits);
      Pow2Grows(t.bits - 1, u.bits - 1);
      if t.bits < u.bits {
        Pow2Grows(t.bits, u.bits - 1);
      }
    }
  }

  /** For every pair of types, whatever their sizes and signs. */
  lemma InRangeIff(t: IntType, u: IntType, x: int)
    requires Supported(t) && Supported(u) && Fits(u, x)
    ensures IsInRange(t, u, x) <==> Fits(t, x)
  {
    hide Convert;
    WidthsGrow(t, u);
    WidthsGrow(u, t);
  }

  /** Division in C++ rounds towards zero. */
  function Quotient(x: int, y: int): int
    requires y != 0
  {
    if x >= 0 then (if y > 0 then x / y else -(x / -y)) else (if y > 0 then -(-x / y) else -x / -y)
  }

  /** The product is formed in a type of twice the size if there is one, and otherwise compared by
      division. */
  function IsMulValid(t: IntType, x: int, y: int): bool
    requires Supported(t) && Fits(t, x) && Fits(t, y)
  {
    if t.bits < 64 then IsInRange(t, IntType(2 * t.bits, t.signed), x * y)
    else if t.signed then
      if x == 0 || y == 0 then true
      else if x > 0 then (if y > 0 then x <= Quotient(Max(t), y) else y >= Quotient(Min(t), x))
      else (if y > 0 then x >= Quotient(Min(t), y) else y >= Quotient(Max(t), x))
    else y == 0 || x <= Quotient(Max(t), y)
  }

  function IsDivValid(t: IntType, x: int, y: int): bool
    requires Supported(t)
  {
    y != 0 && !(t.signed && x == Min(t) && y == -1)
  }

  function IsModValid(t: IntType, x: int, y: int): bool {
    if t.signed && x < 0 then false else y >= 1
  }

  /** Comparing with a quotient is comparing with a product. */
  lemma AtMostQuotient(a: nat, b: nat, m: nat)
    requires b > 0
    ensures a <= m / b <==> a * b <= m
  {
    assert m == (m / b) * b + m % b;
    if a <= m / b {
      Times(a, m / b, b);
    } else {
      Times(m / b + 1, a, b);
      assert (m / b + 1) * b == (m / b) * b + b;
    }
  }

  lemma ProductFits(t: IntType, x: int, y: int)
    requires Supported(t) && t.bits < 64 && Fits(t, x) && Fits(t, y)
    ensures Fits(IntType(2 * t.bits, t.signed), x * y)
  {
    hide Pow2;
    if t.signed {
      SquareSigned(t.bits);
      Bounded(x, y, Pow2(t.bits - 1));
    } else {
      SquareUnsigned(t.bits);
      Bounded(x, y, Pow2(t.bits) - 1);
      NonNegative(x, y);
    }
  }

  lemma SquareSigned(w: nat)
    requires w > 0
    ensures Pow2(w - 1) * Pow2(w - 1) <= Pow2(2 * w - 1) - 1
  {
    hide Pow2;
    Pow2Sum(w - 1, w - 1);
    assert (w - 1) + (w - 1) == 2 * w - 2;
    NextPower(2 * w - 2);
  }

  lemma NextPower(k: nat)
    ensures Pow2(k + 1) == 2 * Pow2(k)
  {
  }

  lemma SquareUnsigned(w: nat)
    ensures (Pow2(w) - 1) * (Pow2(w) - 1) <= Pow2(2 * w) - 1
  {
    hide Pow2;
    Pow2Sum(w, w);
    assert w + w == 2 * w;
    SquareLess(Pow2(w));
  }

  lemma SquareLess(m: nat)
    requires m > 0
    ensures (m - 1) * (m - 1) <= m * m - 1
  {
    assert (m - 1) * (m - 1) == m * m - 2 * m + 1;
  }

  lemma NonNegative(x: int, y: int)
    requires x >= 0 && y >= 0
    ensures x * y >= 0
  {
  }

  lemma Bounded(x: int, y: int, h: nat)
    requires -(h as int) <= x <= h && -(h as int) <= y <= h
    ensures -(h * h as int) <= x * y <= h * h
  {
    var a, b := if x >= 0 then x else -x, if y >= 0 then y else -y;
    Times(a, h, b);
    Times(b, h, h);
    assert x * y == a * b || x * y == -(a * b);
  }

  lemma MulValidIff(t: IntType, x: int, y: int)
    requires Supported(t) && Fits(t, x) && Fits(t, y)
    ensures IsMulValid(t, x, y) <==> Fits(t, x * y)
  {
    if t.bits < 64 {
      ProductFits(t, x, y);
      InRangeIff(t, IntType(2 * t.bits, t.signed), x * y);
    } else if x == 0 || y == 0 {
      assert x * y == 0;
    } else {
      MulByDivision(t, x, y);
    }
  }

  lemma MulByDivision(t: IntType, x: int, y: int)
    requires Supported(t) && t.bits == 64 && Fits(t, x) && Fits(t, y) && x != 0 && y != 0
    ensures IsMulValid(t, x, y) <==> Fits(t, x * y)
  {
    var a, b := if x >= 0 then x else -x, if y >= 0 then y else -y;
    Signs(x, y);
    if x > 0 && y > 0 {
      AtMostQuotient(a, b, Max(t));
    } else if x > 0 {
      AtMostQuotient(b, a, -Min(t));
    } else if y > 0 {
      AtMostQuotient(a, b, -Min(t));
    } else {
      AtMostQuotient(b, a, Max(t));
    }
  }

  lemma Signs(x: int, y: int)
    ensures x >= 0 && y >= 0 ==> x * y >= 0
    ensures x <= 0 && y <= 0 ==> x * y >= 0 && x * y == -x * -y && x * y == -y * -x
    ensures x >= 0 && y <= 0 ==> x * y <= 0 && x * y == -(x * -y) && x * y == -(-y * x)
    ensures x <= 0 && y >= 0 ==> x * y <= 0 && x * y == -(-x * y)
  {
  }

  /** A quotient that is valid is one of the type's values, and the excluded one is not. */
  lemma DivValidIff(t: IntType, x: int, y: int)
    requires Supported(t) && Fits(t, x) && Fits(t, y)
    ensures IsDivValid(t, x, y) <==> y != 0 && Fits(t, Quotient(x, y))
  {
    hide Pow2;
    if y != 0 {
      QuotientBounds(x, y);
    }
  }

  lemma QuotientBounds(x: int, y: int)
    requires y != 0
    ensures x >= 0 ==> -x <= Quotient(x, y) <= x
    ensures x < 0 ==> x <= Quotient(x, y) <= -x
    ensures x >= 0 && y > 0 ==> Quotient(x, y) >= 0
    ensures x < 0 && y != -1 ==> Quotient(x, y) < -x
    ensures y == -1 ==> Quotient(x, y) == -x
  {
    QuotientOf(x, y);
    hide Quotient;
    SmallerQuotient(if x >= 0 then x else -x, if y >= 0 then y else -y);
  }

  /** The quotient of the absolute values, with the sign of the product. */
  lemma QuotientOf(x: int, y: int)
    requires y != 0
    ensures var q := Shared(if x >= 0 then x else -x, if y >= 0 then y else -y);
            Quotient(x, y) == if (x >= 0) == (y > 0) then q else -q
  {
  }

  function Shared(a: nat, b: nat): (q: int)
    requires b > 0
    ensures q >= 0
  {
    a / b
  }

  lemma SmallerQuotient(a: nat, b: nat)
    requires b > 0
    ensures Shared(a, b) <= a && (b > 1 && a > 0 ==> Shared(a, b) < a) && (b == 1 ==> Shared(a, b) == a)
  {
    DivideBounds(a, b, a / b);
  }

  lemma DivideBounds(a: nat, b: nat, q: nat)
    requires b > 0 && q == a / b
    ensures q <= a && (b > 1 && a > 0 ==> q < a) && (b == 1 ==> q == a)
  {
    assert q * b <= a;
    Times(1, b, q);
    if b > 1 && q > 0 {
      Times(2, b, q);
    }
  }

  /** A value of a type, and whether it is the result of valid operations only. */
  datatype Checked = Checked(value: int, valid: bool)

  /** The constructor from an integer of another type. */
  function Make(t: IntType, u: IntType, x: int): (c: Checked)
    requires Supported(t) && Supported(u) && Fits(u, x)
    ensures Fits(t, c.value) && (c.valid <==> Fits(t, x)) && (c.valid ==> c.value == x)
  {
    InRangeIff(t, u, x);
    Checked(Convert(t, x), IsInRange(t, u, x))
  }

  datatype Op = Add | Sub | Mul | Div | Mod

  function IsValid(t: IntType, op: Op, x: int, y: int): bool
    requires Supported(t) && Fits(t, x) && Fits(t, y)
  {
    match op
    case Add => IsAddValid(t, x, y)
    case Sub => IsSubValid(t, x, y)
    case Mul => IsMulValid(t, x, y)
    case Div => IsDivValid(t, x, y)
    case Mod => IsModValid(t, x, y)
  }

  /** What the operation makes of two numbers; the remainder only of those the code takes. */
  function Exact(op: Op, x: int, y: int): int
    requires op.Div? || op.Mod? ==> y != 0
    requires op.Mod? ==> x >= 0 && y > 0
  {
    match op
    case Add => x + y
    case Sub => x - y
    case Mul => x * y
    case Div => Quotient(x, y)
    case Mod => x % y
  }

  /** Division rounds towards zero: what is left over is smaller than the divisor and has the sign of x;
      and it is the remainder, of the numbers that have one. */
  lemma DividesTowardsZero(x: int, y: int)
    requires y != 0
    ensures var left := x - Exact(Div, x, y) * y;
            && (x >= 0 ==> 0 <= left < if y > 0 then y else -y)
            && (x <= 0 ==> 0 <= -left < if y > 0 then y else -y)
            && (x >= 0 && y > 0 ==> Exact(Mod, x, y) == left)
  {
    var a, b := if x >= 0 then x else -x, if y >= 0 then y else -y;
    var q := a / b;
    assert a == q * b + a % b;
    Signs(q, y);
    Signs(-q, y);
  }

  /** Whether an operation has a result, and one of the type t. */
  ghost predicate HasResult(t: IntType, op: Op, x: int, y: int)
    requires Supported(t)
  {
    && (op.Div? || op.Mod? ==> y != 0) && (op.Mod? ==> x >= 0 && y > 0)
    && Fits(t, Exact(op, x, y))
  }

  lemma RemainderFits(x: int, y: int)
    requires x >= 0 && y > 0
    ensures 0 <= x % y <= x
  {
    assert x == (x / y) * y + x % y;
  }

  /** The checks are exact, for every type and every pair of its values. */
  lemma ValidIff(t: IntType, op: Op, x: int, y: int)
    requires Supported(t) && Fits(t, x) && Fits(t, y)
    ensures IsValid(t, op, x, y) <==> HasResult(t, op, x, y)
  {
    hide IsAddValid;
    hide IsSubValid;
    hide IsMulValid;
    hide IsDivValid;
    match op
    case Add => AddValidIff(t, x, y);
    case Sub => SubValidIff(t, x, y);
    case Mul => MulValidIff(t, x, y);
    case Div => DivValidIff(t, x, y);
    case Mod =>
      if x >= 0 && y > 0 {
        RemainderFits(x, y);
      }
  }

  /** The binary operators. */
  function Apply(t: IntType, op: Op, a: Checked, b: Checked): (c: Checked)
    requires Supported(t) && Fits(t, a.value) && Fits(t, b.value)
    ensures Fits(t, c.value)
  {
    ValidIff(t, op, a.value, b.value);
    if !IsValid(t, op, a.value, b.value) then Checked(0, false)
    else Checked(Exact(op, a.value, b.value), a.valid && b.valid)
  }

  /** Negation, for signed and unsigned types. */
  function Negate(t: IntType, a: Checked): (c: Checked)
    requires Supported(t) && Fits(t, a.value)
    ensures Fits(t, c.value)
  {
    if !t.signed then Checked(0, a.valid && a.value == 0)
    else if !a.valid || a.value == Min(t) then Checked(a.value, false)
    else Checked(-a.value, true)
  }

  /** An expression over integers of any types. */
  datatype Expr =
    | Leaf(x: int, of: IntType)
    | Binary(op: Op, left: Expr, right: Expr)
    | Negated(e: Expr)

  ghost predicate Proper(e: Expr) {
    match e
    case Leaf(x, of) => Supported(of) && Fits(of, x)
    case Binary(_, left, right) => Proper(left) && Proper(right)
    case Negated(e) => Proper(e)
  }

  /** What the class makes of it. */
  function Eval(t: IntType, e: Expr): (c: Checked)
    requires Supported(t) && Proper(e)
    ensures Fits(t, c.value)
  {
    match e
    case Leaf(x, of) => Make(t, of, x)
    case Binary(op, left, right) => Apply(t, op, Eval(t, left), Eval(t, right))
    case Negated(e) => Negate(t, Eval(t, e))
  }

  /** What it is in exact arithmetic, as long as everything in it has a value of the type t. */
  ghost function Meaning(t: IntType, e: Expr): Option<int>
    requires Supported(t)
  {
    match e
    case Leaf(x, _) => if Fits(t, x) then Some(x) else None
    case Binary(op, left, right) =>
      var l, r := Meaning(t, left), Meaning(t, right);
      if l.Some? && r.Some? && HasResult(t, op, l.value, r.value) then Some(Exact(op, l.value, r.value)) else None
    case Negated(e) =>
      var m := Meaning(t, e);
      if m.Some? && Fits(t, -m.value) then Some(-m.value) else None
  }

  /** A result is valid exactly if every part of the expression has an exact value in the type, and
      then it is the exact value of the whole. */
  lemma {:induction false} EvalExact(t: IntType, e: Expr)
    requires Supported(t) && Proper(e)
    ensures Eval(t, e).valid <==> Meaning(t, e).Some?
    ensures Eval(t, e).valid ==> Meaning(t, e) == Some(Eval(t, e).value)
  {
    hide IsValid;
    hide HasResult;
    match e
    case Leaf(x, of) =>
    case Binary(op, left, right) =>
      EvalExact(t, left);
      EvalExact(t, right);
      ValidIff(t, op, Eval(t, left).value, Eval(t, right).value);
    case Negated(e) =>
      EvalExact(t, e);
  }
}

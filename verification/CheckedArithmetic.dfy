/** Overflow-checked arithmetic of the runtime: 64-bit operands, 32-bit limits and
    unsigned intermediates. */
module CheckedArithmetic {
  import opened FixedWidth

  /** The runtime's `long`. */
  type long = x: int | -TWO_63 <= x < TWO_63

  datatype Operand = Integer(value: long) | Double | Other

  datatype Error = BadArgument | TooLarge | TooSmall | OutOfBounds | DivisionByZero | Unexpected

  datatype OpResult = Result(value: long) | Exception(error: Error)

  /** 64-bit addition and multiplication wrap. */
  function Wrap64(x: int): (r: long)
    ensures (x - r) % 0x1_0000_0000_0000_0000 == 0
    ensures -TWO_63 <= x < TWO_63 ==> r == x
  {
    var low := x % 0x1_0000_0000_0000_0000;
    if low < TWO_63 then low else low - 0x1_0000_0000_0000_0000
  }

  function Sum(a: Operand, b: Operand): OpResult {
    if a.Double? || b.Double? then Exception(BadArgument)
    else if a.Integer? && b.Integer? then
      if a.value > 0 && b.value > INT_MAX - a.value then Exception(TooLarge)
      else if a.value < 0 && b.value < INT_MIN - a.value then Exception(TooSmall)
      else Result(Wrap64(a.value + b.value))
    else Exception(Unexpected)
  }

  /** As written: the checks compare the difference with `-INT_MAX` and `-INT_MIN`, and the
      result is the sum. */
  function Subtract(a: Operand, b: Operand): OpResult {
    if a.Double? || b.Double? then Exception(BadArgument)
    else if a.Integer? && b.Integer? then
      if a.value < 0 && b.value > INT_MAX + a.value then Exception(TooLarge)
      else if a.value > 0 && b.value < INT_MIN + a.value then Exception(TooSmall)
      else Result(Wrap64(a.value + b.value))
    else Exception(Unexpected)
  }

  function Magnitude(x: long): int {
    var y: int := x;
    Unsigned(if y < 0 then Wrap64(-y) else y)
  }

  function Divide(a: Operand, b: Operand): OpResult {
    if a.Double? || b.Double? then Exception(BadArgument)
    else if a.Integer? && b.Integer? then
      if b.value == 0 then Exception(DivisionByZero)
      else if a.value == INT_MIN && b.value == -1 then Exception(TooLarge)
      // a 64-bit divisor may truncate to 0: the unsigned division is then undefined
      else if Magnitude(b.value) == 0 then Exception(Unexpected)
      else if (a.value <= 0 && b.value < 0) || (a.value >= 0 && b.value > 0) then
        Result(Magnitude(a.value) / Magnitude(b.value))
      else
        // the product with -1 is unsigned
        Result(Unsigned(-(Magnitude(a.value) / Magnitude(b.value))))
    else Exception(Unexpected)
  }

  function Multiply(a: Operand, b: Operand): OpResult {
    if a.Double? || b.Double? then Exception(BadArgument)
    else if a.Integer? && b.Integer? then
      if a.value == 0 || b.value == 0 then Result(0)
      else if (a.value == INT_MIN && b.value != 1) || (b.value == INT_MIN && a.value != 1) then Exception(OutOfBounds)
      else if Magnitude(b.value) == 0 then Exception(Unexpected)
      else if (a.value > 0 && b.value > 0) || (a.value < 0 && b.value < 0) then
        if Magnitude(a.value) > INT_MAX / Magnitude(b.value) then Exception(TooLarge)
        else Result(Wrap64(a.value * b.value))
      else
        if Magnitude(a.value) > Unsigned(-INT_MIN) / Magnitude(b.value) then Exception(TooSmall)
        else Result(Wrap64(a.value * b.value))
    else Exception(Unexpected)
  }

  // ----- the exact results -----

  /** Sum never wraps: for all 64-bit operands it is exact or raises, and for 32-bit
      operands it raises exactly when the sum leaves the 32-bit range. */
  lemma SumExact(a: long, b: long)
    ensures var r := Sum(Integer(a), Integer(b));
            && (r.Result? ==> r.value == a + b)
            && (In32(a) && In32(b) ==> (r.Result? <==> In32(a + b)))
  {
  }

  lemma QuotientBound(a: nat, b: nat, m: nat)
    requires b > 0
    ensures a > m / b <==> a * b > m
  {
    var q := m / b;
    assert m == b * q + m % b;
    if a > q {
      assert a * b >= (q + 1) * b;
    } else {
      assert a * b <= q * b;
    }
  }

  lemma MagnitudeOf(x: int)
    requires In32(x)
    ensures Magnitude(x) == if x < 0 then -x else x
  {
  }

  lemma MultiplyExact(a: int, b: int)
    requires In32(a) && In32(b)
    ensures var r := Multiply(Integer(a), Integer(b));
            (r.Result? <==> In32(a * b)) && (r.Result? ==> r.value == a * b)
  {
    hide Magnitude, Unsigned, Wrap64;
    MagnitudeOf(a);
    MagnitudeOf(b);
    if a == 0 || b == 0 {
      assert a * b == 0;
    } else {
      var x, y := Magnitude(a), Magnitude(b);
      var p, q := a * b, x * y;
      QuotientBound(x, y, INT_MAX);
      QuotientBound(x, y, -INT_MIN);
      ProductSign(a, b);
      ProductGrows(x, y);
      ProductGrows(y, x);
      assert p == if (a < 0) == (b < 0) then q else -q;
      assert a == INT_MIN || b == INT_MIN ==> q >= -INT_MIN;
      assert In32(p) <==> if (a < 0) == (b < 0) then q <= INT_MAX else q <= -INT_MIN;
      MinProduct(a, b);
    }
  }

  lemma MinProduct(a: int, b: int)
    requires a != 0 && b != 0
    ensures a == INT_MIN && b != 1 ==> !In32(a * b)
    ensures b == INT_MIN && a != 1 ==> !In32(a * b)
  {
    if a == INT_MIN {
      assert a * b == INT_MIN * b;
    }
    if b == INT_MIN {
      assert a * b == INT_MIN * a;
    }
  }

  lemma ProductSign(a: int, b: int)
    ensures var x, y := if a < 0 then -a else a, if b < 0 then -b else b;
            a * b == (if (a < 0) == (b < 0) then x * y else -(x * y)) && x * y >= 0
  {
    assert (-a) * (-b) == a * b && (-a) * b == -(a * b) && a * (-b) == -(a * b);
  }

  /** Division truncating toward zero. */
  function Truncated(a: int, b: int): int
    requires b != 0
  {
    var q := (if a < 0 then -a else a) / (if b < 0 then -b else b);
    if (a < 0) == (b < 0) then q else -q
  }

  lemma QuotientRange(x: nat, y: nat)
    requires y > 0
    ensures 0 <= x / y <= x && (y > 1 && x > 0 ==> x / y < x)
  {
    QuotientBound(x + 1, y, x);
    ProductGrows(x + 1, y);
    if y > 1 && x > 0 {
      QuotientBound(x, y, x);
      ProductGrows(x, y);
    }
  }

  lemma ProductGrows(x: nat, y: nat)
    requires x > 0 && y > 0
    ensures x * y >= x && (y > 1 ==> x * y > x)
  {
    assert x * y == x + x * (y - 1);
    if y > 1 {
      assert x * (y - 1) == x + x * (y - 2);
    }
  }

  lemma LowHalf(q: int)
    requires 0 <= q <= -INT_MIN
    ensures q <= INT_MAX ==> Signed32(q) == q
    ensures Signed32(Unsigned(-q)) == -q
    ensures q > 0 ==> Unsigned(-q) == TWO_32 - q
  {
  }

  /** For 32-bit operands Divide raises exactly on division by zero and INT_MIN / -1, and
      the low half of its result is the truncated quotient.  The whole result is the
      quotient exactly when the quotient is not negative. */
  lemma DivideExact(a: int, b: int)
    requires In32(a) && In32(b)
    ensures var r := Divide(Integer(a), Integer(b));
            && (r.Exception? <==> b == 0 || (a == INT_MIN && b == -1))
            && (r.Result? ==> Signed32(r.value) == Truncated(a, b))
            && (r.Result? ==> (r.value == Truncated(a, b) <==> Truncated(a, b) >= 0))
  {
    MagnitudeOf(a);
    MagnitudeOf(b);
    if b != 0 && !(a == INT_MIN && b == -1) {
      hide Signed32, Unsigned, Magnitude;
      var x, y := Magnitude(a), Magnitude(b);
      QuotientRange(x, y);
      LowHalf(x / y);
      ZeroQuotient(y);
      assert Unsigned(0) == 0 && Signed32(0) == 0 by { LowHalf(0); }
    }
  }

  lemma ZeroQuotient(y: nat)
    requires y > 0
    ensures 0 / y == 0
  {
  }

  /** What Subtract should do: the difference, or an exception if it leaves the range. */
  predicate IsDifference(r: OpResult, a: int, b: int) {
    if In32(a - b) then r.Result? && r.value == a - b else r.Exception?
  }

  /** Subtract returns the sum, unless it raises.  That is right exactly when nothing is
      subtracted from a number other than INT_MIN, or when both the difference is out of
      range and the checks, which compare it with the wrong limits, find it so. */
  lemma SubtractExact(a: int, b: int)
    requires In32(a) && In32(b)
    ensures var r := Subtract(Integer(a), Integer(b));
            && (r.Result? ==> r.value == a + b)
            && (IsDifference(r, a, b) <==>
                (b == 0 && a != INT_MIN) || (a < 0 && a - b < INT_MIN) || (a > 0 && a - b > INT_MAX + 1))
  {
  }

  /** Three differences that are in range: the first two raise, the third is 5. */
  lemma WrongDifferences()
    ensures Subtract(Integer(INT_MIN), Integer(0)).Exception?
    ensures Subtract(Integer(-1), Integer(INT_MAX)).Exception?
    ensures Subtract(Integer(3), Integer(2)) == Result(5)
  {
  }

  // ----- which exception -----

  /** Every operation refuses floats as bad arguments, and whatever else is not a pair of
      integers as unexpected. */
  lemma OperandErrors(a: Operand, b: Operand)
    ensures var results := [Sum(a, b), Subtract(a, b), Multiply(a, b), Divide(a, b)];
            forall k :: 0 <= k < |results| ==>
              && (results[k] == Exception(BadArgument) <==> a.Double? || b.Double?)
              && (!a.Double? && !b.Double? && (a.Other? || b.Other?) ==> results[k] == Exception(Unexpected))
  {
  }

  /** The exceptions of 32-bit operands, by the exact result. */
  lemma SumErrors(a: long, b: long)
    requires In32(a) && In32(b)
    ensures var r := Sum(Integer(a), Integer(b));
            && (r == Exception(TooLarge) <==> a + b > INT_MAX)
            && (r == Exception(TooSmall) <==> a + b < INT_MIN)
            && (r.Result? || r == Exception(TooLarge) || r == Exception(TooSmall))
  {
  }

  lemma SubtractErrors(a: long, b: long)
    requires In32(a) && In32(b)
    ensures var r := Subtract(Integer(a), Integer(b));
            && (r == Exception(TooLarge) <==> a < 0 && a - b < -INT_MAX)
            && (r == Exception(TooSmall) <==> a > 0 && a - b > -INT_MIN)
            && (r.Result? || r == Exception(TooLarge) || r == Exception(TooSmall))
  {
  }

  /** INT_MIN times anything but 0 and 1 is out of bounds, whatever the sign of the product. */
  lemma MultiplyErrors(a: int, b: int)
    requires In32(a) && In32(b)
    ensures var r, min := Multiply(Integer(a), Integer(b)), a == INT_MIN || b == INT_MIN;
            && (r == Exception(OutOfBounds) <==> min && !In32(a * b))
            && (r == Exception(TooLarge) <==> !min && a * b > INT_MAX)
            && (r == Exception(TooSmall) <==> !min && a * b < INT_MIN)
            && (r.Result? || r.error in {OutOfBounds, TooLarge, TooSmall})
  {
    MultiplyExact(a, b);
    hide Magnitude, Unsigned, Wrap64;
    MagnitudeOf(a);
    MagnitudeOf(b);
    ProductSign(a, b);
    if a != 0 && b != 0 {
      MinProduct(a, b);
    }
  }

  lemma DivideErrors(a: int, b: int)
    requires In32(a) && In32(b)
    ensures var r := Divide(Integer(a), Integer(b));
            && (r == Exception(DivisionByZero) <==> b == 0)
            && (r == Exception(TooLarge) <==> a == INT_MIN && b == -1)
            && (r.Result? || r.error in {DivisionByZero, TooLarge})
  {
    MagnitudeOf(a);
    MagnitudeOf(b);
  }

  // ----- expressions -----

  datatype Expr = Const(c: long) | Add(l: Expr, r: Expr) | Mul(l: Expr, r: Expr)

  /** Chained operations: the first exception ends the evaluation. */
  function Run(e: Expr): OpResult {
    match e
    case Const(c) => Result(c)
    case Add(l, r) =>
      var x := Run(l);
      if x.Exception? then x
      else
        var y := Run(r);
        if y.Exception? then y else Sum(Integer(x.value), Integer(y.value))
    case Mul(l, r) =>
      var x := Run(l);
      if x.Exception? then x
      else
        var y := Run(r);
        if y.Exception? then y else Multiply(Integer(x.value), Integer(y.value))
  }

  function Exact(e: Expr): int {
    match e
    case Const(c) => c
    case Add(l, r) => Exact(l) + Exact(r)
    case Mul(l, r) => Exact(l) * Exact(r)
  }

  /** No subexpression leaves the 32-bit range. */
  predicate Fits(e: Expr) {
    In32(Exact(e)) && match e
                      case Const(_) => true
                      case Add(l, r) => Fits(l) && Fits(r)
                      case Mul(l, r) => Fits(l) && Fits(r)
  }

  predicate ConstantsFit(e: Expr) {
    match e
    case Const(c) => In32(c)
    case Add(l, r) => ConstantsFit(l) && ConstantsFit(r)
    case Mul(l, r) => ConstantsFit(l) && ConstantsFit(r)
  }

  /** An expression over 32-bit constants yields its exact value, or raises, and it raises
      exactly when some subexpression leaves the 32-bit range. */
  lemma {:induction false} RunExact(e: Expr)
    requires ConstantsFit(e)
    ensures Run(e).Result? <==> Fits(e)
    ensures Run(e).Result? ==> Run(e).value == Exact(e)
  {
    match e
    case Const(_) =>
    case Add(l, r) =>
      RunExact(l);
      RunExact(r);
      if Run(l).Result? && Run(r).Result? {
        SumExact(Exact(l), Exact(r));
      }
    case Mul(l, r) =>
      RunExact(l);
      RunExact(r);
      if Run(l).Result? && Run(r).Result? {
        MultiplyExact(Exact(l), Exact(r));
      }
  }

  /** The first subexpression, in the order of evaluation, that leaves the 32-bit range. */
  ghost function FirstOut(e: Expr): (x: Expr)
    requires !Fits(e)
    ensures !In32(Exact(x))
  {
    match e
    case Const(_) => e
    case Add(l, r) => if !Fits(l) then FirstOut(l) else if !Fits(r) then FirstOut(r) else e
    case Mul(l, r) => if !Fits(l) then FirstOut(l) else if !Fits(r) then FirstOut(r) else e
  }

  /** The exception that stops an expression tells how its first such subexpression leaves
      the range, unless it is a product of INT_MIN. */
  lemma {:induction false} RunStopsAt(e: Expr)
    requires ConstantsFit(e) && !Fits(e)
    ensures Run(e) == Exception(if Exact(FirstOut(e)) > INT_MAX then TooLarge else TooSmall)
         || (Run(e) == Exception(OutOfBounds) && FirstOut(e).Mul?
             && (Exact(FirstOut(e).l) == INT_MIN || Exact(FirstOut(e).r) == INT_MIN))
  {
    hide Sum, Multiply;
    match e
    case Const(_) =>
    case Add(l, r) =>
      RunExact(l);
      RunExact(r);
      if !Fits(l) {
        RunStopsAt(l);
      } else if !Fits(r) {
        RunStopsAt(r);
      } else {
        SumErrors(Exact(l), Exact(r));
      }
    case Mul(l, r) =>
      RunExact(l);
      RunExact(r);
      if !Fits(l) {
        RunStopsAt(l);
      } else if !Fits(r) {
        RunStopsAt(r);
      } else {
        MultiplyExact(Exact(l), Exact(r));
        MultiplyErrors(Exact(l), Exact(r));
      }
  }
}

/**
 * The epsilon-tolerant scalar `Safe<T>` and the four-way `RelationType`.
 *
 * A `Safe` wraps one floating value; it is modelled over `real`, so the
 * comparison laws below hold exactly, without floating-point rounding.
 * The source's operators with a built-in numeric operand take that operand
 * as a `real` here (the cast to the scalar type is the identity).
 */
module DataType {

  /** The fixed tolerance band of every comparison (1e-6). */
  const EPSILON: real := 0.000001

  datatype Safe = Safe(value: real)

  /** The four ways a polygon can lie relative to a plane. */
  datatype RelationType = COINCIDENT | IN_FRONT | BEHIND | SPLIT

  /** The domain errors the scalar's operations raise. */
  datatype MathError = DivisionByZero | NegativeSqrt | NonPositiveLog | AsinDomain | AcosDomain

  datatype Result<T> = Ok(value: T) | Err(error: MathError)

  datatype Outcome = Pass | Fail(error: MathError)

  function Abs(x: real): real {
    if x < 0.0 then -x else x
  }

  // ---------------------------------------------------------------------
  // Comparisons between two scalars

  /** Tolerant `==`: within the band of `<=` and `>=`, its two edges excluded. */
  predicate Eq(a: Safe, b: Safe)
    ensures Eq(a, b) <==> Le(a, b) && Ge(a, b) && Abs(a.value - b.value) != EPSILON
  {
    Abs(a.value - b.value) < EPSILON
  }

  /** Tolerant `!=`: tolerantly below, tolerantly above, or exactly on the band edge. */
  predicate Ne(a: Safe, b: Safe)
    ensures Ne(a, b) <==> Lt(a, b) || Gt(a, b) || Abs(a.value - b.value) == EPSILON
  {
    !Eq(a, b)
  }

  /** Tolerant `<`: below, and farther than EPSILON away. */
  predicate Lt(a: Safe, b: Safe)
    ensures Lt(a, b) <==> a.value < b.value && Abs(a.value - b.value) > EPSILON
  {
    a.value < b.value - EPSILON
  }

  /** Tolerant `<=` is the negation of tolerant `>`. */
  predicate Le(a: Safe, b: Safe)
    ensures Le(a, b) <==> !Gt(a, b)
  {
    a.value <= b.value + EPSILON
  }

  /** Tolerant `>` is tolerant `<` with the operands swapped. */
  predicate Gt(a: Safe, b: Safe)
    ensures Gt(a, b) <==> Lt(b, a)
  {
    a.value > b.value + EPSILON
  }

  /** Tolerant `>=` is the negation of tolerant `<`. */
  predicate Ge(a: Safe, b: Safe)
    ensures Ge(a, b) <==> !Lt(a, b)
  {
    a.value >= b.value - EPSILON
  }

  // ---------------------------------------------------------------------
  // Comparisons with a built-in number on the right: each agrees with the
  // scalar comparison against the scalar holding that number

  predicate EqNum(a: Safe, x: real)
    ensures EqNum(a, x) <==> Eq(a, Safe(x))
  {
    Abs(a.value - x) < EPSILON
  }

  predicate NeNum(a: Safe, x: real)
    ensures NeNum(a, x) <==> Ne(a, Safe(x))
  {
    !EqNum(a, x)
  }

  predicate LtNum(a: Safe, x: real)
    ensures LtNum(a, x) <==> Lt(a, Safe(x))
  {
    a.value < x - EPSILON
  }

  predicate LeNum(a: Safe, x: real)
    ensures LeNum(a, x) <==> Le(a, Safe(x))
  {
    a.value <= x + EPSILON
  }

  predicate GtNum(a: Safe, x: real)
    ensures GtNum(a, x) <==> Gt(a, Safe(x))
  {
    a.value > x + EPSILON
  }

  predicate GeNum(a: Safe, x: real)
    ensures GeNum(a, x) <==> Ge(a, Safe(x))
  {
    a.value >= x - EPSILON
  }

  // ---------------------------------------------------------------------
  // Comparisons with a built-in number on the left (the friend overloads):
  // each is the mirrored comparison with the number on the right

  predicate NumEq(x: real, a: Safe)
    ensures NumEq(x, a) <==> Eq(Safe(x), a)
  {
    EqNum(a, x)
  }

  predicate NumNe(x: real, a: Safe)
    ensures NumNe(x, a) <==> Ne(Safe(x), a)
  {
    NeNum(a, x)
  }

  predicate NumLt(x: real, a: Safe)
    ensures NumLt(x, a) <==> GtNum(a, x)
  {
    x < a.value - EPSILON
  }

  predicate NumLe(x: real, a: Safe)
    ensures NumLe(x, a) <==> GeNum(a, x)
  {
    x <= a.value + EPSILON
  }

  predicate NumGt(x: real, a: Safe)
    ensures NumGt(x, a) <==> LtNum(a, x)
  {
    x > a.value + EPSILON
  }

  predicate NumGe(x: real, a: Safe)
    ensures NumGe(x, a) <==> LeNum(a, x)
  {
    x >= a.value - EPSILON
  }

  // ---------------------------------------------------------------------
  // Laws of the comparisons

  /** Tolerant equality holds exactly when the two values are closer than EPSILON. */
  lemma EqWithinBand(a: Safe, b: Safe)
    ensures Eq(a, b) <==> -EPSILON < a.value - b.value < EPSILON
  {
  }

  lemma EqReflexive(a: Safe)
    ensures Eq(a, a)
  {
  }

  lemma EqSymmetric(a: Safe, b: Safe)
    ensures Eq(a, b) <==> Eq(b, a)
  {
  }

  /** Tolerant equality is not transitive: two steps of 2/3 EPSILON add up to more than EPSILON. */
  lemma EqNotTransitive()
    ensures var a, b, c := Safe(0.0), Safe(EPSILON * 2.0 / 3.0), Safe(EPSILON * 4.0 / 3.0);
            Eq(a, b) && Eq(b, c) && !Eq(a, c)
  {
  }

  /** `!=` negates `==`, whichever side the built-in number is on. */
  lemma NeIsNotEq(a: Safe, b: Safe, x: real)
    ensures Ne(a, b) <==> !Eq(a, b)
    ensures NeNum(a, x) <==> !EqNum(a, x)
    ensures NumNe(x, a) <==> !NumEq(x, a)
  {
  }

  /** At most one of `<`, `==`, `>` holds; none holds exactly on the band edge. */
  lemma Trichotomy(a: Safe, b: Safe)
    ensures !(Lt(a, b) && Eq(a, b)) && !(Eq(a, b) && Gt(a, b)) && !(Lt(a, b) && Gt(a, b))
    ensures !Lt(a, b) && !Eq(a, b) && !Gt(a, b) <==> Abs(a.value - b.value) == EPSILON
  {
  }

  /** `<` and `>` are strict orders: irreflexive and transitive. */
  lemma LtStrictOrder(a: Safe, b: Safe, c: Safe)
    ensures !Lt(a, a) && !Gt(a, a)
    ensures Lt(a, b) && Lt(b, c) ==> Lt(a, c)
  {
  }

  // ---------------------------------------------------------------------
  // Arithmetic

  /** Unary minus: the exact additive inverse. */
  function Neg(a: Safe): (r: Safe)
    ensures Add(a, r) == Safe(0.0)
  {
    Safe(-a.value)
  }

  /** Adding a tolerant zero, and only that, leaves a tolerantly equal value; adding a tolerantly positive value makes it tolerantly greater. */
  function Add(a: Safe, b: Safe): (r: Safe)
    ensures Eq(r, a) <==> EqNum(b, 0.0)
    ensures GtNum(b, 0.0) ==> Gt(r, a)
  {
    Safe(a.value + b.value)
  }

  function Sub(a: Safe, b: Safe): (r: Safe)
    ensures Add(r, b) == a
  {
    Safe(a.value - b.value)
  }

  /** The product is zero exactly when a factor is, and one is its unit. */
  function Mul(a: Safe, b: Safe): (r: Safe)
    ensures r.value == 0.0 <==> a.value == 0.0 || b.value == 0.0
    ensures b == Safe(1.0) ==> r == a
  {
    Safe(a.value * b.value)
  }

  /** `abs`: the exact magnitude, the operand or its negation, tolerantly zero exactly when the operand is. */
  function AbsOf(x: Safe): (r: Safe)
    ensures r.value >= 0.0 && (r == x || r == Neg(x))
    ensures EqNum(r, 0.0) <==> EqNum(x, 0.0)
  {
    Safe(Abs(x.value))
  }

  /** Division fails on a divisor within EPSILON of zero. */
  function Div(a: Safe, b: Safe): (r: Result<Safe>)
    ensures r.Err? <==> Abs(b.value) < EPSILON
    ensures r.Err? ==> r.error == DivisionByZero
    ensures r.Ok? ==> Mul(r.value, b) == a
  {
    if Abs(b.value) < EPSILON then Err(DivisionByZero) else Ok(Safe(a.value / b.value))
  }

  /** Division by a built-in number: the same guard on the number itself. */
  function DivNum(a: Safe, x: real): (r: Result<Safe>)
    ensures r == Div(a, Safe(x))
    ensures r.Ok? ==> r.value.value * x == a.value
  {
    if Abs(x) < EPSILON then Err(DivisionByZero) else Ok(Safe(a.value / x))
  }

  /** The operators undo each other: subtraction undoes addition, negation is an involution, division undoes multiplication. */
  lemma ArithmeticRoundTrips(a: Safe, b: Safe)
    ensures Sub(Add(a, b), b) == a && Add(Sub(a, b), b) == a
    ensures Neg(Neg(a)) == a && Add(a, Neg(b)) == Sub(a, b)
    ensures Abs(b.value) >= EPSILON ==> Div(Mul(a, b), b) == Ok(a)
  {
    if Abs(b.value) >= EPSILON {
      var m := Mul(a, b);
      assert b.value != 0.0;
      assert m.value / b.value == a.value;
      assert Div(m, b) == Ok(Safe(m.value / b.value));
    }
  }

  /** The quotient, when defined, is the exact real quotient. */
  lemma DivQuotient(a: Safe, b: Safe)
    requires Abs(b.value) >= EPSILON
    ensures Div(a, b) == Ok(Safe(a.value / b.value))
  {
  }

  // ---------------------------------------------------------------------
  // Domain guards of the elementary functions

  /** `sqrt` rejects negative input, tested on the raw value with no tolerance. */
  function SqrtGuard(x: Safe): (r: Outcome)
    ensures r.Fail? <==> x.value < 0.0
    ensures r.Fail? ==> r.error == NegativeSqrt
  {
    if x.value < 0.0 then Fail(NegativeSqrt) else Pass
  }

  /** `log` rejects zero and negative input. */
  function LogGuard(x: Safe): (r: Outcome)
    ensures r.Fail? <==> x.value <= 0.0
    ensures r.Fail? ==> r.error == NonPositiveLog
  {
    if x.value <= 0.0 then Fail(NonPositiveLog) else Pass
  }

  /** `asin` rejects input outside [-1, 1]. */
  function AsinGuard(x: Safe): (r: Outcome)
    ensures r.Pass? <==> -1.0 <= x.value <= 1.0
    ensures r.Fail? ==> r.error == AsinDomain
  {
    if x.value < -1.0 || x.value > 1.0 then Fail(AsinDomain) else Pass
  }

  /** `acos` rejects input outside [-1, 1]. */
  function AcosGuard(x: Safe): (r: Outcome)
    ensures r.Pass? <==> -1.0 <= x.value <= 1.0
    ensures r.Fail? ==> r.error == AcosDomain
  {
    if x.value < -1.0 || x.value > 1.0 then Fail(AcosDomain) else Pass
  }

  /** The guards are tested without tolerance: a value just below zero is refused by sqrt. */
  lemma GuardsIgnoreTolerance()
    ensures Eq(Safe(-EPSILON / 2.0), Safe(0.0)) && SqrtGuard(Safe(-EPSILON / 2.0)).Fail?
    ensures LogGuard(Safe(0.0)).Fail? && LogGuard(Safe(EPSILON / 2.0)).Pass?
  {
  }

  // ---------------------------------------------------------------------
  // min / max

  /** `min` keeps `a` only when it is tolerantly smaller; otherwise `b`. */
  function Min(a: Safe, b: Safe): (r: Safe)
    ensures r == a || r == b
    ensures Le(r, a) && Le(r, b)
    ensures r.value <= a.value + EPSILON && r.value <= b.value
  {
    if Lt(a, b) then a else b
  }

  /** `max` keeps `a` only when it is tolerantly greater; otherwise `b`. */
  function Max(a: Safe, b: Safe): (r: Safe)
    ensures r == a || r == b
    ensures Ge(r, a) && Ge(r, b)
    ensures r.value >= a.value - EPSILON && r.value >= b.value
  {
    if Gt(a, b) then a else b
  }

  /** On tolerantly equal inputs both `min` and `max` return the second operand. */
  lemma MinMaxOnEqual(a: Safe, b: Safe)
    requires Eq(a, b)
    ensures Min(a, b) == b && Max(a, b) == b
  {
  }

  /** `min` returns its first operand exactly when it is tolerantly smaller (for distinct operands). */
  lemma MinMaxSelect(a: Safe, b: Safe)
    requires a != b
    ensures Min(a, b) == a <==> Lt(a, b)
    ensures Max(a, b) == a <==> Gt(a, b)
  {
  }

  // ---------------------------------------------------------------------
  // The in-place compound assignments

  /** A `Safe` variable: the target of `setValue` and of `+=`, `-=`, `*=`, `/=`. */
  class SafeVar {
    var value: real

    constructor (v: real)
      ensures value == v
    {
      value := v;
    }

    /** The default constructor starts at zero. */
    constructor Zero()
      ensures value == 0.0
    {
      value := 0.0;
    }

    function GetValue(): (r: Safe)
      reads this
      ensures r.value == value
    {
      Safe(value)
    }

    method SetValue(v: real)
      modifies this
      ensures value == v
    {
      value := v;
    }

    method AddAssign(other: Safe)
      modifies this
      ensures GetValue() == Add(old(GetValue()), other)
    {
      value := value + other.value;
    }

    method SubAssign(other: Safe)
      modifies this
      ensures GetValue() == Sub(old(GetValue()), other)
    {
      value := value - other.value;
    }

    method MulAssign(other: Safe)
      modifies this
      ensures GetValue() == Mul(old(GetValue()), other)
    {
      value := value * other.value;
    }

    /** `/=` throws before assigning, so a refused division leaves the value unchanged. */
    method DivAssign(other: Safe) returns (outcome: Outcome)
      modifies this
      ensures outcome.Fail? <==> Abs(other.value) < EPSILON
      ensures outcome.Fail? ==> outcome.error == DivisionByZero && value == old(value)
      ensures outcome.Pass? ==> Div(old(GetValue()), other) == Ok(GetValue())
    {
      if Abs(other.value) < EPSILON {
        return Fail(DivisionByZero);
      }
      value := value / other.value;
      outcome := Pass;
    }

    /** `/=` with a built-in divisor: the same guard on the number itself. */
    method DivAssignNum(x: real) returns (outcome: Outcome)
      modifies this
      ensures outcome.Fail? <==> Abs(x) < EPSILON
      ensures outcome.Fail? ==> outcome.error == DivisionByZero && value == old(value)
      ensures outcome.Pass? ==> DivNum(old(GetValue()), x) == Ok(GetValue())
    {
      if Abs(x) < EPSILON {
        return Fail(DivisionByZero);
      }
      value := value / x;
      outcome := Pass;
    }
  }
}

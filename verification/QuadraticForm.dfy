/**
 * Binary quadratic forms ax^2 + bxy + cy^2 of `crypto/quadratic_form.py`: Gauss
 * reduction in place, and the fixed-width signed encoding of reduced forms.
 */
module QuadraticForms {
  import opened Common
  import opened Endian
  import opened Powers

  datatype Form = Form(a: int, b: int, c: int)
  {
    function Discriminant(): int { b * b - 4 * a * c }

    function At(x: int, y: int): int { a * (x * x) + b * (x * y) + c * (y * y) }

    ghost predicate Represents(n: int) { exists x, y :: At(x, y) == n }
  }

  function Abs(x: int): nat { if x < 0 then -x else x }

  /** Python's `n // d`, rounded towards minus infinity. */
  function FloorDiv(n: int, d: int): int
    requires d != 0
  {
    if d > 0 then n / d else (-n) / (-d)
  }

  // ------------------------------------------------------------- divisibility

  function Gcd(x: int, y: int): (g: nat)
    decreases Abs(y)
  {
    if y == 0 then Abs(x) else Gcd(y, Abs(x) % Abs(y))
  }

  /** `is_primitive`. */
  predicate IsPrimitive(f: Form) { Gcd(Gcd(f.a, f.b), f.c) == 1 }

  ghost predicate Divides(d: int, n: int) { exists k :: n == d * k }

  ghost predicate CommonDivisor(d: int, f: Form) { Divides(d, f.a) && Divides(d, f.b) && Divides(d, f.c) }

  lemma {:induction false} DividesSum(d: int, x: int, y: int)
    requires Divides(d, x) && Divides(d, y)
    ensures Divides(d, x + y) && Divides(d, x - y) && Divides(d, -x)
  {
    var i :| x == d * i;
    var j :| y == d * j;
    assert x + y == d * (i + j) && x - y == d * (i - j) && -x == d * (-i);
  }

  lemma {:induction false} DividesProduct(d: int, x: int, k: int)
    requires Divides(d, x)
    ensures Divides(d, x * k)
  {
    var i :| x == d * i;
    assert x * k == d * (i * k);
  }

  lemma {:induction false} DividesSelf(d: int)
    ensures Divides(d, d) && Divides(d, 0) && Divides(d, -d)
  {
    assert d == d * 1 && 0 == d * 0 && -d == d * -1;
  }

  /** The Euclidean gcd divides both arguments, and every common divisor divides it. */
  lemma {:induction false} GcdIsGreatest(x: int, y: int)
    ensures Divides(Gcd(x, y), x) && Divides(Gcd(x, y), y)
    ensures forall d :: Divides(d, x) && Divides(d, y) ==> Divides(d, Gcd(x, y))
    decreases Abs(y)
  {
    if y == 0 {
      DividesSelf(Abs(x));
      forall d | Divides(d, x) && Divides(d, y)
        ensures Divides(d, Gcd(x, y))
      {
        DividesSum(d, x, x);
      }
    } else {
      var r, q := Abs(x) % Abs(y), Abs(x) / Abs(y);
      assert Abs(x) == Abs(y) * q + r;
      GcdIsGreatest(y, r);
      var g := Gcd(y, r);
      AbsDivides(g, y);
      DividesProduct(g, Abs(y), q);
      DividesSum(g, Abs(y) * q, r);
      AbsDivides(g, x);
      forall d | Divides(d, x) && Divides(d, y)
        ensures Divides(d, g)
      {
        AbsDivides(d, x);
        AbsDivides(d, y);
        DividesProduct(d, Abs(y), q);
        DividesSum(d, Abs(x), Abs(y) * q);
      }
    }
  }

  lemma {:induction false} AbsDivides(d: int, n: int)
    ensures Divides(d, n) <==> Divides(d, Abs(n))
  {
    if Divides(d, n) { DividesSum(d, n, n); }
    if Divides(d, Abs(n)) { DividesSum(d, Abs(n), Abs(n)); }
  }

  /** A form is primitive exactly when no d > 1 divides all its coefficients. */
  lemma {:induction false} PrimitiveMeansNoCommonDivisor(f: Form)
    ensures IsPrimitive(f) <==> forall d :: d > 1 ==> !CommonDivisor(d, f)
  {
    if f == Form(0, 0, 0) {
      DividesSelf(2);
      assert CommonDivisor(2, f);
      return;
    }
    var g := Gcd(f.a, f.b);
    var h := Gcd(g, f.c);
    GcdIsGreatest(f.a, f.b);
    GcdIsGreatest(g, f.c);
    DividesTransitive(h, g, f.a);
    DividesTransitive(h, g, f.b);
    assert CommonDivisor(h, f);
    DivisorIsPositive(h, f);
    forall d | d > 1 && CommonDivisor(d, f)
      ensures h != 1
    {
      assert Divides(d, g) && Divides(d, h);
      DividesAtMost(d, h);
    }
  }

  lemma {:induction false} DivisorIsPositive(d: nat, f: Form)
    requires f != Form(0, 0, 0) && CommonDivisor(d, f)
    ensures d > 0
  {
    var i :| f.a == d * i;
    var j :| f.b == d * j;
    var k :| f.c == d * k;
  }

  lemma {:induction false} DividesAtMost(d: nat, n: nat)
    requires n > 0 && Divides(d, n)
    ensures d <= n
  {
    var k :| n == d * k;
    assert k > 0 ==> d * k >= d;
  }

  lemma {:induction false} DividesTransitive(d: int, e: int, n: int)
    requires Divides(d, e) && Divides(e, n)
    ensures Divides(d, n)
  {
    var i :| e == d * i;
    var j :| n == e * j;
    assert n == d * (i * j);
  }

  // ---------------------------------------------------------------- reduction

  /** `is_reduced`. */
  predicate IsReduced(f: Form) { Abs(f.b) <= f.a <= f.c && !(f.a == f.c && f.b < 0) }

  /** The nearest multiple that the step subtracts; for b < 0 it is one short of the nearest. */
  function Quotient(f: Form): int
    requires f.a != 0
  {
    FloorDiv(f.b + (if f.b >= 0 then f.a else -f.a), 2 * f.a)
  }

  /** Substitute x - my for x. */
  function Shift(f: Form, m: int): Form { Form(f.a, f.b - 2 * m * f.a, m * m * f.a - m * f.b + f.c) }

  /** Substitute (-y, x) for (x, y). */
  function Swap(f: Form): Form { Form(f.c, -f.b, f.a) }

  /** One Gauss step. */
  function Step(f: Form): Form
    requires f.a != 0
  {
    var g := Shift(f, Quotient(f));
    if g.a > g.c || (g.a == g.c && g.b < 0) then Swap(g) else g
  }

  predicate PositiveDefinite(f: Form) { f.a > 0 && f.Discriminant() < 0 }

  /** No positive discriminant and no negative outer coefficient: the forms on which reduction ends. */
  predicate Reducible(f: Form) { f.a >= 0 && f.c >= 0 && f.Discriminant() <= 0 }

  lemma {:induction false} DefiniteIsReducible(f: Form)
    requires f.Discriminant() < 0
    ensures Reducible(f) <==> PositiveDefinite(f)
  {
    SignOfLast(f);
    assert f.a == 0 ==> f.b * f.b >= 0 && 4 * f.a * f.c == 0;
  }

  lemma {:induction false} ReducedIsReducible(f: Form)
    requires IsReduced(f)
    ensures Reducible(f)
  {
    SquareMonotone(Abs(f.b), f.a);
    assert Abs(f.b) * Abs(f.b) == f.b * f.b;
    assert f.a * f.a <= f.a * f.c;
    assert 4 * f.a * f.c == 4 * (f.a * f.c) >= f.a * f.c;
  }

  lemma {:induction false} ShiftKeepsDiscriminant(f: Form, m: int)
    ensures Shift(f, m).Discriminant() == f.Discriminant()
  {
    var a, b, c := f.a, f.b, f.c;
    calc {
      Shift(f, m).Discriminant();
      (b - 2 * m * a) * (b - 2 * m * a) - 4 * a * (m * m * a - m * b + c);
      { assert (b - 2 * m * a) * (b - 2 * m * a) == b * b - 4 * m * a * b + 4 * m * a * m * a; }
      b * b - 4 * m * a * b + 4 * m * a * m * a - 4 * a * (m * m * a - m * b + c);
      { assert 4 * a * (m * m * a - m * b + c) == 4 * m * a * m * a - 4 * m * a * b + 4 * a * c; }
      b * b - 4 * a * c;
    }
  }

  lemma {:induction false} SwapKeepsDiscriminant(f: Form)
    ensures Swap(f).Discriminant() == f.Discriminant()
  {
    assert (-f.b) * (-f.b) == f.b * f.b;
    assert f.a * f.c == f.c * f.a;
  }

  /** The outer coefficients of a form with D <= 0 do not have opposite signs. */
  lemma {:induction false} SignOfLast(f: Form)
    requires f.Discriminant() <= 0
    ensures f.a > 0 ==> f.c >= 0
    ensures f.a < 0 ==> f.c <= 0
    ensures f.Discriminant() < 0 ==> f.a != 0 && f.c != 0
  {
    assert f.b * f.b >= 0;
    assert 4 * f.a * f.c >= 0 && 4 * f.a * f.c == 4 * (f.a * f.c);
    assert f.a > 0 && f.c < 0 ==> f.a * f.c < 0;
    assert f.a < 0 && f.c > 0 ==> f.a * f.c < 0;
  }

  /** Where the step puts b: in [-a, a) for b >= 0, but only in [a, 3a) for b < 0. */
  lemma {:induction false} ShiftRange(f: Form)
    requires f.a > 0
    ensures var b := Shift(f, Quotient(f)).b;
      if f.b >= 0 then -f.a <= b < f.a else f.a <= b < 3 * f.a
  {
    var a, b := f.a, f.b;
    var n := if b >= 0 then b + a else b - a;
    var m := n / (2 * a);
    assert n == 2 * a * m + n % (2 * a);
    assert 2 * m * a == 2 * a * m;
  }

  lemma {:induction false} StepKeepsDiscriminant(f: Form)
    requires f.a != 0
    ensures Step(f).Discriminant() == f.Discriminant()
  {
    ShiftKeepsDiscriminant(f, Quotient(f));
    SwapKeepsDiscriminant(Shift(f, Quotient(f)));
  }

  /** 0 when reduced, 1 when the next step is exact, 2 when b < 0 delays it by one. */
  function Rank(f: Form): nat { if IsReduced(f) then 0 else if f.b >= 0 then 1 else 2 }

  /** A step makes a smaller, or keeps a and comes nearer to a reduced form. */
  lemma {:induction false} StepProgress(f: Form)
    requires Reducible(f) && !IsReduced(f)
    ensures f.a > 0 && Reducible(Step(f))
    ensures Step(f).a < f.a || (Step(f).a == f.a && Rank(Step(f)) < Rank(f))
  {
    hide Quotient, Form.Discriminant;
    FirstNotZero(f);
    var g := Shift(f, Quotient(f));
    ShiftKeepsDiscriminant(f, Quotient(f));
    SwapKeepsDiscriminant(g);
    SignOfLast(g);
    ShiftRange(f);
  }

  lemma {:induction false} FirstNotZero(f: Form)
    requires Reducible(f) && !IsReduced(f)
    ensures f.a > 0
  {
    assert f.a == 0 ==> 4 * f.a * f.c == 0;
    assert f.b != 0 ==> f.b * f.b > 0;
  }

  /** The form that Gauss reduction ends in. */
  function ReducedForm(f: Form): (r: Form)
    requires Reducible(f)
    ensures Reducible(r) && IsReduced(r)
    decreases f.a, Rank(f)
  {
    if IsReduced(f) then f else
      StepProgress(f);
      ReducedForm(Step(f))
  }

  /** Equivalent forms: same discriminant, same common divisors, same integers represented. */
  ghost predicate Equivalent(f: Form, g: Form)
  {
    && f.Discriminant() == g.Discriminant()
    && (forall d :: CommonDivisor(d, f) <==> CommonDivisor(d, g))
    && (forall n :: f.Represents(n) <==> g.Represents(n))
  }

  lemma {:induction false} ShiftDivisors(f: Form, m: int, d: int)
    requires CommonDivisor(d, f)
    ensures CommonDivisor(d, Shift(f, m))
  {
    DividesProduct(d, f.a, 2 * m);
    assert f.a * (2 * m) == 2 * m * f.a;
    DividesSum(d, f.b, 2 * m * f.a);
    DividesProduct(d, f.a, m * m);
    assert f.a * (m * m) == m * m * f.a;
    DividesProduct(d, f.b, m);
    assert f.b * m == m * f.b;
    DividesSum(d, m * m * f.a, m * f.b);
    DividesSum(d, m * m * f.a - m * f.b, f.c);
  }

  lemma {:induction false} ShiftValue(f: Form, m: int, x: int, y: int)
    ensures Shift(f, m).At(x, y) == f.At(x - m * y, y)
  {
    var a, b, c := f.a, f.b, f.c;
    assert (x - m * y) * (x - m * y) == x * x - 2 * (m * (x * y)) + (m * m) * (y * y);
    assert (x - m * y) * y == x * y - m * (y * y);
    ShiftAlgebra(a, b, c, m, x * x, x * y, y * y);
  }

  lemma {:induction false} ShiftAlgebra(a: int, b: int, c: int, m: int, xx: int, xy: int, yy: int)
    ensures a * xx + (b - 2 * m * a) * xy + (m * m * a - m * b + c) * yy
         == a * (xx - 2 * (m * xy) + (m * m) * yy) + b * (xy - m * yy) + c * yy
  {
    assert (b - 2 * m * a) * xy == b * xy - 2 * (a * (m * xy));
    assert (m * m * a - m * b + c) * yy == a * ((m * m) * yy) - b * (m * yy) + c * yy;
  }

  lemma {:induction false} ShiftBack(f: Form, m: int)
    ensures Shift(Shift(f, m), -m) == f
  {
    var a, b := f.a, f.b;
    var c := m * m * a - m * b + f.c;
    assert (b - 2 * m * a) - 2 * (-m) * a == b;
    assert (-m) * (-m) * a == m * m * a;
    assert (-m) * (b - 2 * m * a) == -(m * b) + 2 * (m * m * a);
  }

  lemma {:induction false} ShiftEquivalent(f: Form, m: int)
    ensures Equivalent(f, Shift(f, m))
  {
    var g := Shift(f, m);
    ShiftKeepsDiscriminant(f, m);
    ShiftBack(f, m);
    forall d
      ensures CommonDivisor(d, f) <==> CommonDivisor(d, g)
    {
      if CommonDivisor(d, f) { ShiftDivisors(f, m, d); }
      if CommonDivisor(d, g) { ShiftDivisors(g, -m, d); }
    }
    forall n
      ensures f.Represents(n) <==> g.Represents(n)
    {
      if f.Represents(n) {
        var x, y :| f.At(x, y) == n;
        ShiftValue(g, -m, x, y);
        assert g.At(x - (-m) * y, y) == n;
      }
      if g.Represents(n) {
        var x, y :| g.At(x, y) == n;
        ShiftValue(f, m, x, y);
        assert f.At(x - m * y, y) == n;
      }
    }
  }

  lemma {:induction false} SwapValue(f: Form, x: int, y: int)
    ensures Swap(f).At(x, y) == f.At(-y, x)
  {
    assert (-f.b) * (x * y) == f.b * ((-y) * x);
    assert (-y) * (-y) == y * y;
  }

  lemma {:induction false} SwapEquivalent(f: Form)
    ensures Equivalent(f, Swap(f))
  {
    var g := Swap(f);
    SwapKeepsDiscriminant(f);
    forall d
      ensures CommonDivisor(d, f) <==> CommonDivisor(d, g)
    {
      if Divides(d, f.b) { DividesSum(d, f.b, f.b); }
      if Divides(d, -f.b) { DividesSum(d, -f.b, -f.b); }
    }
    forall n
      ensures f.Represents(n) <==> g.Represents(n)
    {
      if f.Represents(n) {
        var x, y :| f.At(x, y) == n;
        SwapValue(f, y, -x);
        assert g.At(y, -x) == n;
      }
      if g.Represents(n) {
        var x, y :| g.At(x, y) == n;
        SwapValue(f, x, y);
        assert f.At(-y, x) == n;
      }
    }
  }

  lemma {:induction false} EquivalentTransitive(f: Form, g: Form, h: Form)
    requires Equivalent(f, g) && Equivalent(g, h)
    ensures Equivalent(f, h)
  {
    hide CommonDivisor, Form.Represents, Form.Discriminant;
  }

  lemma {:induction false} StepEquivalent(f: Form)
    requires f.a != 0
    ensures Equivalent(f, Step(f))
  {
    hide Equivalent;
    var g := Shift(f, Quotient(f));
    ShiftEquivalent(f, Quotient(f));
    SwapEquivalent(g);
    EquivalentTransitive(f, g, Swap(g));
  }

  /** Reduction ends in an equivalent form. */
  lemma {:induction false} ReductionEquivalent(f: Form)
    requires Reducible(f)
    ensures Equivalent(f, ReducedForm(f))
    decreases f.a, Rank(f)
  {
    if !IsReduced(f) {
      StepProgress(f);
      StepEquivalent(f);
      ReductionEquivalent(Step(f));
      EquivalentTransitive(f, Step(f), ReducedForm(f));
    }
  }

  lemma {:induction false} EquivalentKeepsPrimitive(f: Form, g: Form)
    requires Equivalent(f, g)
    ensures IsPrimitive(f) <==> IsPrimitive(g)
  {
    PrimitiveMeansNoCommonDivisor(f);
    PrimitiveMeansNoCommonDivisor(g);
  }

  /** The first coefficient of a reduced form is small: 3a^2 <= |D|. */
  lemma {:induction false} ReducedIsSmall(f: Form)
    requires IsReduced(f)
    ensures 3 * (f.a * f.a) <= -f.Discriminant()
    ensures -f.a <= f.b <= f.a
  {
    assert f.b * f.b <= f.a * f.a by { SquareMonotone(Abs(f.b), f.a); assert Abs(f.b) * Abs(f.b) == f.b * f.b; }
    assert f.a * f.a <= f.a * f.c;
    assert 4 * f.a * f.c == 4 * (f.a * f.c);
  }

  lemma {:induction false} SquareMonotone(x: nat, y: nat)
    requires x <= y
    ensures x * x <= y * y
  {
    assert x * x <= x * y <= y * y;
  }

  // ------------------------------------------------- a class has one reduced form

  lemma {:induction false} Times(k: int, x: int, y: int)
    requires k >= 0 && (x <= y || (x >= 0 && y == x * x))
    ensures k * x <= k * y
  {
    if x >= 1 && y == x * x {
      assert x * x >= x;
    }
  }

  lemma {:induction false} Times2(j: int, k: int, x: int)
    requires x >= 0 && j <= k
    ensures j * x <= k * x
  {
  }

  lemma {:induction false} Products(a: int, u: nat, v: nat)
    requires a >= 0 && u >= v
    ensures a * (u * u) >= a * (u * v)
  {
    Times2(v, u, u);
    Times(a, u * v, u * u);
  }

  /** |bxy| is at most a|x||y|. */
  lemma {:induction false} MixedTerm(b: int, x: int, y: int, a: int)
    requires Abs(b) <= a
    ensures b * (x * y) >= -(a * (Abs(x) * Abs(y)))
  {
    var w := Abs(x) * Abs(y);
    assert x * y == w || x * y == -w;
    assert w >= 0;
    Times2(Abs(b), a, w);
    assert b * w >= -(Abs(b) * w) && b * (-w) >= -(Abs(b) * w);
  }

  lemma {:induction false} WideValue(a: int, c: int, u: nat, v: nat)
    requires 0 <= a <= c && u >= v
    ensures a * (u * u) - a * (u * v) + c * (v * v) >= c * v
  {
    Products(a, u, v);
    Times(c, v, v * v);
  }

  lemma {:induction false} TallValue(a: int, c: int, u: nat, v: nat)
    requires 0 <= a <= c && u < v
    ensures a * (u * u) - a * (u * v) + c * (v * v) >= c * v
  {
    assert u * v >= 0 && u * u >= 0;
    Times(a, 0, u * u);
    Times2(a, c, u * v);
    assert v * v - u * v == v * (v - u);
    Times(v, 1, v - u);
    Times(c, u * v + v, v * v);
    assert c * (u * v + v) == c * (u * v) + c * v;
  }

  /** Off the x axis a reduced form takes no value below c, and at height y none below c|y|. */
  lemma {:induction false} ValueAtLeast(f: Form, x: int, y: int)
    requires IsReduced(f)
    ensures f.At(x, y) >= f.c * Abs(y)
  {
    var (u, v) := (Abs(x), Abs(y));
    SquareOfAbs(x);
    SquareOfAbs(y);
    MixedTerm(f.b, x, y, f.a);
    if u >= v {
      WideValue(f.a, f.c, u, v);
    } else {
      TallValue(f.a, f.c, u, v);
    }
  }

  lemma {:induction false} SquareOfAbs(x: int)
    ensures x * x == Abs(x) * Abs(x)
  {
  }

  lemma {:induction false} DefiniteCoefficients(f: Form)
    requires IsReduced(f) && f.Discriminant() < 0
    ensures f.a > 0 && f.c > 0
  {
    SignOfLast(f);
  }

  /** The least positive integer represented is a. */
  lemma {:induction false} LeastValue(f: Form, n: int)
    requires IsReduced(f) && f.Discriminant() < 0
    ensures f.Represents(f.a) && f.Represents(f.c)
    ensures n > 0 && f.Represents(n) ==> f.a <= n
  {
    hide Form.Discriminant;
    DefiniteCoefficients(f);
    assert f.At(1, 0) == f.a && f.At(0, 1) == f.c;
    if n > 0 && f.Represents(n) {
      var x, y :| f.At(x, y) == n;
      if y == 0 {
        assert f.At(x, 0) == f.a * (x * x);
        assert x == 0 || x * x >= 1;
        Times(f.a, 1, if x == 0 then 1 else x * x);
      } else {
        ValueAtLeast(f, x, y);
        Times(f.c, 1, Abs(y));
      }
    }
  }

  /** Below 2c only a x^2, c itself and values from c + a - |b| on are represented. */
  lemma {:induction false} SmallValues(f: Form, n: int)
    requires IsReduced(f) && f.Discriminant() < 0 && f.Represents(n) && n < 2 * f.c
    ensures (exists x :: n == f.a * (x * x)) || n == f.c || n >= f.c + f.a - Abs(f.b)
  {
    hide Form.Discriminant;
    DefiniteCoefficients(f);
    var x, y :| f.At(x, y) == n;
    if y == 0 {
      assert n == f.a * (x * x);
    } else {
      ValueAtLeast(f, x, y);
      if Abs(y) >= 2 {
        Times(f.c, 2, Abs(y));
      } else if x != 0 {
        BesideTheAxis(f, x, y);
      }
    }
  }

  lemma {:induction false} BesideTheAxis(f: Form, x: int, y: int)
    requires IsReduced(f) && x != 0 && Abs(y) == 1
    ensures f.At(x, y) >= f.c + f.a - Abs(f.b)
  {
    SquareOfAbs(x);
    MixedTerm(f.b, x, y, Abs(f.b));
    assert y * y == 1 && Abs(x) * Abs(y) == Abs(x);
    OneStepAside(f.a, Abs(f.b), Abs(x));
  }

  lemma {:induction false} OneStepAside(a: int, b: int, u: int)
    requires 0 <= b <= a && u >= 1
    ensures a * (u * u) - b * u >= a - b
  {
    Times(a, 1, u);
    var rest := a * u - b;
    assert a * (u * u) == a * u * u;
    assert a * u * u - b * u == rest * u;
    Times(rest, 1, u);
  }

  lemma {:induction false} Bounded(k: int, x: int, y: int)
    requires k > 0 && k * x <= k * y
    ensures x <= y
  {
    if x > y {
      Times(k, y + 1, x);
    }
  }

  lemma {:induction false} GapProduct(a: int, c: int, d: int)
    ensures 4 * a * d - 4 * a * c == 2 * a * (2 * (d - c))
  {
  }

  lemma {:induction false} DifferenceOfSquares(x: int, y: int)
    ensures y * y - x * x == (y - x) * (y + x)
  {
  }

  lemma {:induction false} LargerSquare(x: nat, y: nat, k: int, gap: int)
    requires y * y - x * x == k * gap && k > 0 && gap > 0
    ensures x < y
  {
    if y <= x {
      SquareMonotone(y, x);
      Times(k, 1, gap);
    }
  }

  /** Two reduced forms with the same a and D and different c: the larger c is less than halfway to a - |b|. */
  lemma {:induction false} LastsAreNear(a: int, b: nat, c: int, e: nat, d: int)
    requires 0 < a && b <= a && e <= a && d > c && b * b - 4 * a * c == e * e - 4 * a * d
    ensures b < e && 0 < 2 * (d - c) <= a - b
  {
    GapProduct(a, c, d);
    LargerSquare(b, e, 2 * a, 2 * (d - c));
    DifferenceOfSquares(b, e);
    NearByProduct(2 * a, 2 * (d - c), e - b, e + b);
  }

  lemma {:induction false} NearByProduct(k: int, x: int, y: int, z: int)
    requires k > 0 && k * x == y * z && y >= 0 && z <= k
    ensures x <= y
  {
    Times(y, z, k);
    Bounded(k, x, y);
  }

  lemma {:induction false} EquivalentRepresents(f: Form, g: Form, n: int)
    requires Equivalent(f, g)
    ensures f.Represents(n) <==> g.Represents(n)
  {
    hide CommonDivisor, Form.Represents, Form.Discriminant;
  }

  /** Two multiples of a by squares do not differ by half of a or less. */
  lemma {:induction false} SquaresAreFar(a: int, x: int, z: int, gap: int)
    requires a > 0 && a * (x * x) - a * (z * z) == gap && gap > 0
    ensures gap >= a
  {
    var q := x * x - z * z;
    assert gap == a * q;
    if q >= 1 {
      Times(a, 1, q);
    } else {
      Times(a, q, 0);
    }
  }

  lemma {:induction false} LastsNotApart(f: Form, g: Form)
    requires Equivalent(f, g) && IsReduced(f) && IsReduced(g) && f.Discriminant() < 0 && f.a == g.a
    ensures f.c >= g.c
  {
    hide Equivalent, Form.Represents;
    EquivalentForms(f, g);
    if f.c < g.c {
      var a := f.a;
      DefiniteCoefficients(f);
      SquareOfAbs(f.b);
      SquareOfAbs(g.b);
      LastsAreNear(a, Abs(f.b), f.c, Abs(g.b), g.c);
      hide Form.Discriminant, IsReduced;
      ReducedIsSmall(f);
      ReducedIsSmall(g);
      LeastValue(f, 1);
      LeastValue(g, 1);
      EquivalentRepresents(f, g, f.c);
      EquivalentRepresents(f, g, g.c);
      OrderedCoefficients(f);
      SmallValues(f, g.c);
      SmallValues(g, f.c);
      var x :| g.c == a * (x * x);
      var z :| f.c == a * (z * z);
      SquaresAreFar(a, x, z, g.c - f.c);
    }
  }

  lemma {:induction false} OrderedCoefficients(f: Form)
    requires IsReduced(f)
    ensures Abs(f.b) <= f.a <= f.c
  {
  }

  /**
   * Reduction is canonical: two reduced forms with D < 0 that represent the same integers have the same outer
   * coefficients, and the same middle one up to its sign, which is free only when a < c.
   */
  lemma {:induction false} ReducedIsUnique(f: Form, g: Form)
    requires Equivalent(f, g) && IsReduced(f) && IsReduced(g) && f.Discriminant() < 0
    ensures f.a == g.a && f.c == g.c && Abs(f.b) == Abs(g.b)
    ensures f.a == f.c ==> f.b == g.b && f.b >= 0
  {
    LeastValue(f, g.a);
    LeastValue(g, f.a);
    DefiniteCoefficients(f);
    DefiniteCoefficients(g);
    LastsNotApart(f, g);
    EquivalentSymmetric(f, g);
    LastsNotApart(g, f);
    assert f.b * f.b == g.b * g.b;
    SameSquare(f.b, g.b);
  }

  lemma {:induction false} EquivalentSymmetric(f: Form, g: Form)
    requires Equivalent(f, g)
    ensures Equivalent(g, f)
  {
    hide CommonDivisor, Form.Represents, Form.Discriminant;
  }

  lemma {:induction false} SameSquare(x: int, y: int)
    requires x * x == y * y
    ensures Abs(x) == Abs(y)
  {
    SquareOfAbs(x);
    SquareOfAbs(y);
    SquareBelow(Abs(x), Abs(y));
    SquareBelow(Abs(y), Abs(x));
  }

  lemma {:induction false} SquareBelow(u: nat, v: nat)
    ensures u < v ==> u * u < v * v
  {
    if u < v {
      SquareMonotone(u + 1, v);
      assert (u + 1) * (u + 1) == u * u + 2 * u + 1;
    }
  }

  /** Of the two forms with outer coefficients 2 and D = -15 only one is reduced, and the other reduces to it. */
  lemma {:induction false} TieIsReducedToPositive()
    ensures Form(2, -1, 2).Discriminant() == -15 && !IsReduced(Form(2, -1, 2)) && IsReduced(Form(2, 1, 2))
    ensures Reducible(Form(2, -1, 2)) && ReducedForm(Form(2, -1, 2)) == Form(2, 1, 2)
  {
    hide Step;
    StepsOfTie();
    assert ReducedForm(Form(2, 3, 3)) == Form(2, 1, 2);
  }

  lemma {:induction false} StepsOfTie()
    ensures Step(Form(2, -1, 2)) == Form(2, 3, 3) && Step(Form(2, 3, 3)) == Form(2, 1, 2)
  {
    assert Quotient(Form(2, -1, 2)) == -1 && Quotient(Form(2, 3, 3)) == 1;
    assert Shift(Form(2, -1, 2), -1) == Form(2, 3, 3) && Shift(Form(2, 3, 3), 1) == Form(2, -1, 2);
    assert Swap(Form(2, -1, 2)) == Form(2, 1, 2);
  }

  function Iterate(f: Form, n: nat): Form
  {
    if n == 0 then f else
      var g := Iterate(f, n - 1);
      if g.a == 0 then g else Step(g)
  }

  /**
   * The loop ends in a reduced form exactly for the reducible forms: for D < 0 exactly when the first
   * coefficient is positive, and never for D > 0.
   */
  lemma {:induction false} ReductionEndsIffReducible(f: Form)
    ensures (exists n: nat :: IsReduced(Iterate(f, n))) <==> Reducible(f)
    ensures f.Discriminant() < 0 ==> (Reducible(f) <==> f.a > 0)
  {
    if f.Discriminant() < 0 {
      DefiniteIsReducible(f);
    }
    if Reducible(f) {
      StepsToReduced(f);
    } else {
      forall n: nat
        ensures !IsReduced(Iterate(f, n))
      {
        StaysIrreducible(f, n);
        if IsReduced(Iterate(f, n)) {
          ReducedIsReducible(Iterate(f, n));
        }
      }
    }
  }

  /** Coefficients that decode, and on which the reduction of `from_bytes` never ends. */
  lemma {:induction false} NegativeFormNeverReduces()
    ensures var f := Form(-1, 1, -1);
      && Fits(f, -3) && Decoded(Encoded(f, -3), -3) == Ok(f)
      && forall n: nat :: !IsReduced(Iterate(f, n))
  {
    hide ToSigned, FromSigned, Iterate;
    var f := Form(-1, 1, -1);
    assert f.Discriminant() == -3;
    ReductionEndsIffReducible(f);
    assert Width(-3) == 2 by {
      assert BitLength(3) == 2;
    }
    TwoBytesHold();
    SignedRoundTrip(-1, 2);
    SignedRoundTrip(1, 2);
    var data := Encoded(f, -3);
    assert data[..2] == ToSigned(-1, 2) && data[2..] == ToSigned(1, 2);
    assert IsPrimitive(f);
  }

  lemma {:induction false} TwoBytesHold()
    ensures InWidth(-1, 2) && InWidth(1, 2)
  {
    assert Pow256(2) == 65536;
  }

  lemma {:induction false} StepsToReduced(f: Form)
    requires Reducible(f)
    ensures exists n: nat :: IsReduced(Iterate(f, n))
    decreases f.a, Rank(f)
  {
    if IsReduced(f) {
      assert IsReduced(Iterate(f, 0));
    } else {
      StepProgress(f);
      StepsToReduced(Step(f));
      var n: nat :| IsReduced(Iterate(Step(f), n));
      IterateFromStep(f, n);
      assert IsReduced(Iterate(f, n + 1));
    }
  }

  lemma {:induction false} IterateFromStep(f: Form, n: nat)
    requires f.a != 0
    ensures Iterate(f, n + 1) == Iterate(Step(f), n)
  {
    if n > 0 {
      IterateFromStep(f, n - 1);
    }
  }

  lemma {:induction false} StaysIrreducible(f: Form, n: nat)
    requires !Reducible(f)
    ensures !Reducible(Iterate(f, n))
  {
    hide Step, Reducible;
    if n > 0 {
      StaysIrreducible(f, n - 1);
      var g := Iterate(f, n - 1);
      if g.a != 0 {
        StepStaysIrreducible(g);
      }
    }
  }

  lemma {:induction false} StepStaysIrreducible(f: Form)
    requires f.a != 0 && !Reducible(f)
    ensures !Reducible(Step(f))
  {
    hide Quotient, Form.Discriminant;
    StepKeepsDiscriminant(f);
    var g := Shift(f, Quotient(f));
    ShiftKeepsDiscriminant(f, Quotient(f));
    if f.Discriminant() <= 0 {
      SignOfLast(f);
      SignOfLast(g);
    }
  }

  // ----------------------------------------------------------------- encoding

  /** The values of w-byte two's complement integers. */
  predicate InWidth(n: int, w: nat) { 0 <= 2 * n + Pow256(w) && 2 * n < Pow256(w) }

  /** `n.to_bytes(w, "big", signed=True)`. */
  function ToSigned(n: int, w: nat): (b: Bytes)
    requires InWidth(n, w)
    ensures |b| == w
  {
    ToBig(if n < 0 then n + Pow256(w) else n, w)
  }

  /** `int.from_bytes(b, "big", signed=True)`. */
  function FromSigned(b: Bytes): int
  {
    if 2 * FromBig(b) >= Pow256(|b|) then FromBig(b) - Pow256(|b|) else FromBig(b)
  }

  lemma {:induction false} SignedRoundTrip(n: int, w: nat)
    requires InWidth(n, w)
    ensures FromSigned(ToSigned(n, w)) == n
  {
    hide ToBig, FromBig;
    FromToBig(if n < 0 then n + Pow256(w) else n, w);
  }

  /** The highest byte first, in two's complement (the division rounds down). */
  lemma {:induction false} SignedBytes(n: int, w: nat, k: nat)
    requires InWidth(n, w) && k < w
    ensures ToSigned(n, w)[k] == n / Pow256(w - 1 - k) % 256
  {
    hide ToBig, Pow256;
    BigDigit(if n < 0 then n + Pow256(w) else n, w, k);
    WrappedDigit(n, w, w - 1 - k);
  }

  /** Bytes per coefficient for a discriminant. */
  function Width(D: int): nat { (BitLength(Abs(D)) + 15) / 8 }

  predicate Fits(f: Form, D: int) { InWidth(f.a, Width(D)) && InWidth(f.b, Width(D)) }

  function Encoded(f: Form, D: int): Bytes
    requires Fits(f, D)
  {
    ToSigned(f.a, Width(D)) + ToSigned(f.b, Width(D))
  }

  /** The checks of the constructor. */
  function Checked(f: Form, D: int): Result<Form>
  {
    if f.Discriminant() != D then Err("Discriminant mismatch")
    else if !IsPrimitive(f) then Err("Form coefficients are not coprime (not primitive)")
    else Ok(f)
  }

  /** What `from_bytes` builds before it reduces. */
  function Decoded(data: Bytes, D: int): Result<Form>
  {
    var width := |data| / 2;
    var a, b := FromSigned(data[..width]), FromSigned(data[width..]);
    if a == 0 then Err("division by zero")
    else Checked(Form(a, b, FloorDiv(b * b - D, 4 * a)), D)
  }

  /** The fixed width holds both coefficients of a reduced form. */
  lemma {:induction false} ReducedFits(f: Form)
    requires IsReduced(f)
    ensures Fits(f, f.Discriminant())
    ensures var bits := BitLength(Abs(f.Discriminant())); bits + 7 < 8 * Width(f.Discriminant()) <= bits + 15
  {
    hide Pow256, Pow2, BitLength;
    var D := f.Discriminant();
    var w := Width(D);
    ReducedIsSmall(f);
    assert f.a > 0 ==> f.a <= f.a * f.a;
    Pow256IsPow2(w);
    Pow2Monotone(BitLength(Abs(D)), 8 * w);
  }

  /**
   * A reduced primitive form always encodes; decoding gives it back, already reduced, exactly when
   * its first coefficient is not zero, which every positive definite form satisfies.
   */
  lemma {:induction false} EncodingRoundTrip(f: Form)
    requires IsReduced(f) && IsPrimitive(f)
    ensures Fits(f, f.Discriminant())
    ensures Decoded(Encoded(f, f.Discriminant()), f.Discriminant()) == Ok(f) <==> f.a != 0
    ensures Reducible(f) && ReducedForm(f) == f
  {
    hide ToSigned, FromSigned, InWidth, Width, IsPrimitive, Form.Discriminant, Reducible;
    var D := f.Discriminant();
    ReducedFits(f);
    ReducedIsReducible(f);
    var data, w := Encoded(f, D), Width(D);
    SignedRoundTrip(f.a, w);
    SignedRoundTrip(f.b, w);
    assert |data| / 2 == w;
    assert data[..w] == ToSigned(f.a, w) && data[w..] == ToSigned(f.b, w);
    if f.a != 0 {
      LastFromOthers(f);
    }
  }

  lemma {:induction false} LastFromOthers(f: Form)
    requires f.a > 0
    ensures FloorDiv(f.b * f.b - f.Discriminant(), 4 * f.a) == f.c
  {
    assert f.b * f.b - f.Discriminant() == (4 * f.a) * f.c;
    ExactDivision(4 * f.a, f.c);
  }

  lemma {:induction false} ExactDivision(k: int, c: int)
    requires k > 0
    ensures (k * c) / k == c
  {
    QuotientUnique(k, c, (k * c) / k, (k * c) % k);
  }

  lemma {:induction false} QuotientUnique(k: int, c: int, q: int, r: int)
    requires 0 <= r < k && k * c == k * q + r
    ensures c == q
  {
    var d := c - q;
    assert k * d == r;
    if d >= 1 {
      ProductAtLeast(k, d);
    } else if d <= -1 {
      ProductAtLeast(k, -d);
    }
  }

  lemma {:induction false} ProductAtLeast(k: int, d: int)
    requires k > 0 && d >= 1
    ensures k * d >= k
  {
    var e := d - 1;
    assert k * e >= 0;
    assert k * d == k * e + k;
  }

  class QuadraticForm {
    var a: int
    var b: int
    var c: int
    const D: int

    function Value(): Form
      reads this
    {
      Form(a, b, c)
    }

    constructor (f: Form, D: int)
      ensures Value() == f && this.D == D
    {
      a, b, c, this.D := f.a, f.b, f.c, D;
    }

    /** `_gauss_step`. */
    method GaussStep()
      requires a != 0
      modifies this`a, this`b, this`c
      ensures Value() == Step(old(Value()))
    {
      var sign := if b >= 0 then 1 else -1;
      var m := FloorDiv(b + sign * a, 2 * a);
      var bNew, cNew := b - 2 * m * a, m * m * a - m * b + c;
      ghost var before := Value();
      b, c := bNew, cNew;
      assert Value() == Shift(before, m);
      if a > c || (a == c && b < 0) {
        a, b, c := c, -b, a;
      }
    }

    /** `reduce`, for the forms on which it ends (`ReductionEndsIffReducible`). */
    method Reduce()
      requires Reducible(Value()) && Value().Discriminant() == D
      modifies this`a, this`b, this`c
      ensures Value() == ReducedForm(old(Value()))
      ensures IsReduced(Value()) && Value().Discriminant() == D
      ensures Equivalent(old(Value()), Value())
      ensures IsPrimitive(Value()) <==> IsPrimitive(old(Value()))
    {
      hide Equivalent, IsPrimitive;
      ghost var start := Value();
      while !IsReduced(Value())
        invariant Reducible(Value())
        invariant ReducedForm(Value()) == ReducedForm(start)
        decreases a, Rank(Value())
      {
        StepProgress(Value());
        GaussStep();
      }
      ReductionEquivalent(start);
      EquivalentForms(start, Value());
      EquivalentKeepsPrimitive(start, Value());
    }

    /** `to_bytes`; `int.to_bytes` raises OverflowError when a coefficient does not fit. */
    method ToBytes() returns (data: Result<Bytes>)
      ensures data.Ok? <==> Fits(Value(), D)
      ensures data.Ok? ==> data.value == Encoded(Value(), D)
    {
      var width := (BitLength(Abs(D)) + 15) / 8;
      if !InWidth(a, width) || !InWidth(b, width) {
        return Err("int too big to convert");
      }
      return Ok(ToSigned(a, width) + ToSigned(b, width));
    }

    /** `from_bytes`, for the inputs on which its reduction ends. */
    static method FromBytes(data: Bytes, D: int) returns (q: Result<QuadraticForm>)
      requires Decoded(data, D).Ok? ==> Reducible(Decoded(data, D).value)
      ensures q.Ok? <==> Decoded(data, D).Ok?
      ensures q.Ok? ==> fresh(q.value) && q.value.D == D && q.value.Value() == ReducedForm(Decoded(data, D).value)
    {
      var width := |data| / 2;
      var a, b := FromSigned(data[..width]), FromSigned(data[width..]);
      if a == 0 {
        return Err("division by zero");
      }
      var c := FloorDiv(b * b - D, 4 * a);
      var f := Form(a, b, c);
      var checked := Checked(f, D);
      if checked.Err? {
        return Err(checked.reason);
      }
      var form := new QuadraticForm(f, D);
      form.Reduce();
      return Ok(form);
    }
  }

  lemma {:induction false} EquivalentForms(f: Form, g: Form)
    requires Equivalent(f, g)
    ensures f.Discriminant() == g.Discriminant()
  {
  }
}

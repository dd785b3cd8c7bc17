/** Sums of a function over a finite set. */
module Sums {
  ghost function Sum<T>(s: set<T>, f: T -> int): int
  {
    if s == {} then 0 else
      var x :| x in s;
      f(x) + Sum(s - {x}, f)
  }

  lemma {:induction false} SumPick<T>(s: set<T>, x: T, f: T -> int)
    requires x in s
    ensures Sum(s, f) == f(x) + Sum(s - {x}, f)
  {
    var y :| y in s && Sum(s, f) == f(y) + Sum(s - {y}, f);
    if y != x {
      SumPick(s - {y}, x, f);
      SumPick(s - {x}, y, f);
      assert s - {x} - {y} == s - {y} - {x};
    }
  }

  lemma {:induction false} SumAdd<T>(s: set<T>, x: T, f: T -> int)
    requires x !in s
    ensures Sum(s + {x}, f) == f(x) + Sum(s, f)
  {
    SumPick(s + {x}, x, f);
    assert s + {x} - {x} == s;
  }

  lemma {:induction false} SumSplit<T>(s: set<T>, t: set<T>, f: T -> int)
    requires t <= s
    ensures Sum(s, f) == Sum(t, f) + Sum(s - t, f)
  {
    if t == {} {
      assert s - t == s;
    } else {
      var x :| x in t;
      SumPick(t, x, f);
      SumPick(s, x, f);
      SumSplit(s - {x}, t - {x}, f);
      assert s - {x} - (t - {x}) == s - t;
    }
  }

  lemma {:induction false} SumCongruent<T>(s: set<T>, f: T -> int, g: T -> int)
    requires forall x :: x in s ==> f(x) == g(x)
    ensures Sum(s, f) == Sum(s, g)
  {
    if s != {} {
      var x :| x in s;
      SumPick(s, x, f);
      SumPick(s, x, g);
      SumCongruent(s - {x}, f, g);
    }
  }

  lemma {:induction false} SumNonNegative<T>(s: set<T>, f: T -> int)
    requires forall x :: x in s ==> f(x) >= 0
    ensures Sum(s, f) >= 0
  {
    if s != {} {
      var x :| x in s;
      SumPick(s, x, f);
      SumNonNegative(s - {x}, f);
    }
  }

  lemma {:induction false} SumMonotone<T>(t: set<T>, s: set<T>, f: T -> int)
    requires t <= s && forall x :: x in s ==> f(x) >= 0
    ensures Sum(t, f) <= Sum(s, f)
  {
    SumSplit(s, t, f);
    SumNonNegative(s - t, f);
  }

  /** The union counts nothing twice. */
  lemma {:induction false} SumUnion<T>(s: set<T>, t: set<T>, f: T -> int)
    requires forall x :: x in s + t ==> f(x) >= 0
    ensures Sum(s + t, f) <= Sum(s, f) + Sum(t, f)
  {
    SumSplit(s + t, s, f);
    SumMonotone(s + t - s, t, f);
  }
}

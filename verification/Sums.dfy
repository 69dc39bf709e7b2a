/** Totals over finite sets. */
module Sums {
  /** The sum of `f` over the elements of `s`, taken in any order. */
  ghost function Total<T(!new)>(s: set<T>, f: T -> nat): nat {
    if s == {} then 0
    else
      var x :| x in s;
      f(x) + Total(s - {x}, f)
  }

  /** Any element can be taken out first. */
  lemma {:induction false} TotalWithout<T(!new)>(s: set<T>, f: T -> nat, x: T)
    requires x in s
    ensures Total(s, f) == f(x) + Total(s - {x}, f)
    decreases |s|
  {
    var y :| y in s && Total(s, f) == f(y) + Total(s - {y}, f);
    if y != x {
      TotalWithout(s - {y}, f, x);
      TotalWithout(s - {x}, f, y);
      assert s - {y} - {x} == s - {x} - {y};
    }
  }

  lemma TotalWith<T(!new)>(s: set<T>, f: T -> nat, x: T)
    requires x !in s
    ensures Total(s + {x}, f) == Total(s, f) + f(x)
  {
    TotalWithout(s + {x}, f, x);
    assert s + {x} - {x} == s;
  }

  /** What is at most the sum of two others pointwise is so in total. */
  lemma {:induction false} TotalBound<T(!new)>(s: set<T>, f: T -> nat, g: T -> nat, h: T -> nat)
    requires forall x <- s :: f(x) <= g(x) + h(x)
    ensures Total(s, f) <= Total(s, g) + Total(s, h)
    decreases |s|
  {
    if s != {} {
      var x :| x in s;
      TotalWithout(s, f, x);
      TotalWithout(s, g, x);
      TotalWithout(s, h, x);
      TotalBound(s - {x}, f, g, h);
    }
  }

  /** Elements on which `f` is zero do not matter. */
  lemma {:induction false} TotalWithin<T(!new)>(s: set<T>, t: set<T>, f: T -> nat)
    requires forall x <- s :: x in t || f(x) == 0
    ensures Total(s, f) <= Total(t, f)
    decreases |s|
  {
    if s != {} {
      var x :| x in s;
      TotalWithout(s, f, x);
      if x in t {
        TotalWithout(t, f, x);
        TotalWithin(s - {x}, t - {x}, f);
      } else {
        TotalWithin(s - {x}, t, f);
      }
    }
  }

  lemma {:induction false} TotalSame<T(!new)>(s: set<T>, f: T -> nat, g: T -> nat)
    requires forall x <- s :: f(x) == g(x)
    ensures Total(s, f) == Total(s, g)
    decreases |s|
  {
    if s != {} {
      var x :| x in s;
      TotalWithout(s, f, x);
      TotalWithout(s, g, x);
      TotalSame(s - {x}, f, g);
    }
  }
}

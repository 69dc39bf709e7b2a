/** Counting the items of a sequence that pass a test. */
module Counting {
  function Count<T>(items: seq<T>, test: T -> bool): nat {
    if items == [] then 0 else Count(items[..|items| - 1], test) + if test(items[|items| - 1]) then 1 else 0
  }

  lemma {:induction false} CountConcat<T>(a: seq<T>, b: seq<T>, test: T -> bool)
    ensures Count(a + b, test) == Count(a, test) + Count(b, test)
  {
    if b == [] {
      assert a + b == a;
    } else {
      assert (a + b)[..|a + b| - 1] == a + b[..|b| - 1];
      CountConcat(a, b[..|b| - 1], test);
    }
  }

  lemma {:induction false} CountZero<T>(items: seq<T>, test: T -> bool)
    ensures Count(items, test) == 0 <==> forall i :: 0 <= i < |items| ==> !test(items[i])
  {
    if items != [] {
      CountZero(items[..|items| - 1], test);
    }
  }

  lemma DropEmpty<T>(whole: multiset<T>, a: multiset<T>, b: multiset<T>, c: multiset<T>, d: multiset<T>)
    requires whole == (a + b) + c + d && c == multiset{} && d == multiset{}
    ensures whole == a + b
  {
  }
}

/** Sets of ints that are visited in ascending order (`std::set<int>`). */
module OrderedSets {

  lemma {:induction false} LeastBelow(s: set<int>, a: int) returns (m: int)
    requires a in s
    ensures m in s && forall x :: x in s ==> m <= x
    decreases s
  {
    if b :| b in s && b < a {
      var below := set x | x in s && x < a;
      m := LeastBelow(below, b);
      assert forall x :: x in s ==> x in below || a <= x;
    } else {
      m := a;
    }
  }

  lemma LeastExists(s: set<int>)
    requires s != {}
    ensures exists m :: m in s && forall x :: x in s ==> m <= x
  {
    EmptyOrNot(s);
    var a :| a in s;
    var m := LeastBelow(s, a);
  }

  lemma EmptyOrNot(s: set<int>)
    ensures s == {} || exists a :: a in s
  {
    if forall a :: a !in s {
      assert s == {};
    }
  }

  /** The first element of an ordered set. */
  function Least(s: set<int>): (m: int)
    requires s != {}
    ensures m in s && forall x :: x in s ==> m <= x
  {
    LeastExists(s);
    var m :| m in s && forall x :: x in s ==> m <= x;
    m
  }
}

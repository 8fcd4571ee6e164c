/** Least elements of finite sets of numbers. */
module Sets {

  ghost predicate IsLeast(x: int, s: set<int>) {
    x in s && forall y :: y in s ==> x <= y
  }

  lemma Member(s: set<int>) returns (y: int)
    requires s != {}
    ensures y in s
  {
    assert (forall z :: z !in s) ==> s == {};
    y :| y in s;
  }

  lemma {:induction false} LeastExists(s: set<int>)
    requires s != {}
    ensures exists x :: IsLeast(x, s)
    decreases |s|
  {
    var y := Member(s);
    var t := s - {y};
    assert s == t + {y};
    if t == {} {
      assert IsLeast(y, s);
    } else {
      LeastExists(t);
      var z :| IsLeast(z, t);
      assert IsLeast(if y < z then y else z, s);
    }
  }

  ghost function Least(s: set<int>): (x: int)
    requires s != {}
    ensures IsLeast(x, s)
  {
    LeastExists(s);
    var x :| IsLeast(x, s);
    x
  }

  lemma LeastUnique(x: int, s: set<int>)
    requires IsLeast(x, s)
    ensures s != {} && Least(s) == x
  {
  }

  lemma SubsetSize(s: set<int>, t: set<int>)
    requires s <= t
    ensures |s| <= |t| && (s != t ==> |s| < |t|)
  {
    assert t == s + (t - s);
    assert s + {} == s;
  }
}

/** Enumeration of a finite set of user ids in increasing order: the order in
    which an ordered set of user addresses is walked from begin() to end(). */
module SetOrder {

  /** `m` is the least element of `s`. */
  predicate IsLeast(m: nat, s: set<nat>)
  {
    m in s && forall y :: y in s ==> m <= y
  }

  /** Every non-empty finite set of naturals has a least element. */
  lemma {:induction false} LeastExists(s: set<nat>)
    requires s != {}
    ensures exists m :: IsLeast(m, s)
    decreases |s|
  {
    var x :| x in s;
    if s == {x} {
      assert IsLeast(x, s);
    } else {
      var rest := s - {x};
      LeastExists(rest);
      var m :| IsLeast(m, rest);
      var least := if x <= m then x else m;
      forall y | y in s ensures least <= y {
        if y != x {
          assert y in rest;
        }
      }
      assert IsLeast(least, s);
    }
  }

  /** The least element of a non-empty set. */
  function Least(s: set<nat>): (m: nat)
    requires s != {}
    ensures m in s
    ensures forall y :: y in s ==> m <= y
  {
    LeastExists(s);
    var m :| IsLeast(m, s);
    m
  }

  predicate StrictlyIncreasing(xs: seq<nat>)
  {
    forall i, j :: 0 <= i < j < |xs| ==> xs[i] < xs[j]
  }

  /** The elements of `s`, each exactly once, in increasing order. */
  function Elements(s: set<nat>): (xs: seq<nat>)
    ensures |xs| == |s|
    ensures forall i :: 0 <= i < |xs| ==> xs[i] in s
    ensures StrictlyIncreasing(xs)
    decreases |s|
  {
    if s == {} then []
    else
      var m := Least(s);
      var rest := Elements(s - {m});
      assert forall i :: 0 <= i < |rest| ==> m < rest[i];
      [m] + rest
  }

  /** Every element of the set appears in its enumeration. */
  lemma {:induction false} ElementsCover(s: set<nat>, x: nat)
    requires x in s
    ensures x in Elements(s)
    decreases |s|
  {
    var m := Least(s);
    if x != m {
      ElementsCover(s - {m}, x);
    }
  }
}

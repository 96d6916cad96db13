/**
 * The sum of a finite set of integers, independent of any order: the value
 * `AbstractSet.hashCode` gives a set of `Integer`s, whose hash codes are the
 * integers themselves.
 */
module SetSums {

  ghost function Pick(s: set<int>): (x: int)
    requires s != {}
    ensures x in s
  {
    HasElement(s);
    var x :| x in s; x
  }

  lemma HasElement(s: set<int>)
    requires s != {}
    ensures exists x :: x in s
  {
    if forall x :: x !in s {
      assert false;
    }
  }

  ghost function SetSum(s: set<int>): int
    decreases s
  {
    if s == {} then 0 else Pick(s) + SetSum(s - {Pick(s)})
  }

  /** Any element may be taken out first. */
  lemma {:induction false} SetSumRemove(s: set<int>, y: int)
    requires y in s
    ensures SetSum(s) == y + SetSum(s - {y})
    decreases |s|
  {
    var x := Pick(s);
    if x != y {
      SetSumRemove(s - {x}, y);
      SetSumRemove(s - {y}, x);
      assert s - {x} - {y} == s - {y} - {x};
    }
  }

  lemma SetSumAdd(s: set<int>, y: int)
    requires y !in s
    ensures SetSum(s + {y}) == y + SetSum(s)
  {
    SetSumRemove(s + {y}, y);
    assert s + {y} - {y} == s;
  }

  /** A set of naturals below n sums to at most 0 + 1 + ... + (n - 1). */
  lemma {:induction false} SetSumBelow(s: set<int>, n: nat)
    requires forall x | x in s :: 0 <= x < n
    ensures 0 <= SetSum(s)
    ensures 2 * SetSum(s) <= n * (n - 1)
  {
    if n == 0 {
      assert forall x :: x !in s;
    } else if n - 1 in s {
      SetSumRemove(s, n - 1);
      SetSumBelow(s - {n - 1}, n - 1);
      assert n * (n - 1) == (n - 1) * (n - 2) + 2 * (n - 1);
    } else {
      SetSumBelow(s, n - 1);
      assert n * (n - 1) == (n - 1) * (n - 2) + 2 * (n - 1);
    }
  }
}

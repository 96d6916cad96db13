/**
 * The JDK library methods the set relies on: `Long.bitCount`,
 * `Long.lowestOneBit`, `Long.highestOneBit` and `Arrays.binarySearch(long[],
 * long)`, each defined on words and related to the members of the word.
 */
module Jdk {
  import opened Words

  // ---------------------------------------------------------------------
  // Long.bitCount
  // ---------------------------------------------------------------------

  /** The number of one bits among the lowest n bits of w. */
  function PopCount(w: nat, n: nat): (r: nat)
    ensures r <= n
  {
    if n == 0 then 0 else w % 2 + PopCount(w / 2, n - 1)
  }

  /** `Long.bitCount(w)`. */
  function BitCount(w: Word): nat
  {
    PopCount(w, WIDTH)
  }

  /** The positions below n whose bit is set. */
  ghost function BitsBelow(w: nat, n: nat): set<int>
  {
    set i | 0 <= i < n && BitOf(w, i)
  }

  /** Counting the bits from the bottom agrees with adding the top bit last. */
  lemma {:induction false} PopCountTop(w: nat, n: nat)
    ensures PopCount(w, n + 1) == PopCount(w, n) + (if BitOf(w, n) then 1 else 0)
    decreases n
  {
    if n > 0 {
      PopCountTop(w / 2, n - 1);
    }
  }

  lemma {:induction false} PopCountBits(w: nat, n: nat)
    ensures PopCount(w, n) == |BitsBelow(w, n)|
    decreases n
  {
    if n > 0 {
      PopCountBits(w, n - 1);
      PopCountTop(w, n - 1);
      if BitOf(w, n - 1) {
        assert BitsBelow(w, n) == BitsBelow(w, n - 1) + {n - 1};
      } else {
        assert BitsBelow(w, n) == BitsBelow(w, n - 1);
      }
    }
  }

  /** `Long.bitCount` is the number of members. */
  lemma BitCountMembers(w: Word)
    ensures BitCount(w) == |Members(w)|
  {
    PopCountBits(w, WIDTH);
    assert BitsBelow(w, WIDTH) == Members(w);
  }

  // ---------------------------------------------------------------------
  // Long.lowestOneBit
  // ---------------------------------------------------------------------

  /** `Long.lowestOneBit(w)`, which the JDK computes as `w & -w`. */
  function LowestOneBit(w: Word): Word
  {
    And(w, Neg(w))
  }

  /** The position of the lowest one bit of a positive number. */
  function LowBit(w: nat): (r: nat)
    requires w > 0
    ensures BitOf(w, r)
    ensures forall j | 0 <= j < r :: !BitOf(w, j)
  {
    if w % 2 == 1 then 0
    else
      var r := 1 + LowBit(w / 2);
      assert forall j | 0 < j < r :: BitOf(w, j) == BitOf(w / 2, j - 1);
      r
  }

  /** The complement of x within n bits is 2^n - 1 - x. */
  lemma {:induction false} NotNValue(x: nat, n: nat)
    requires x < Pow2(n)
    ensures NotN(x, n) == Pow2(n) - 1 - x
    decreases n
  {
    if n > 0 {
      NotNValue(x / 2, n - 1);
    }
  }

  /** A number and its complement share no bit. */
  lemma {:induction false} AndNotN(x: nat, n: nat)
    ensures AndN(x, NotN(x, n), n) == 0
    decreases n
  {
    if n > 0 {
      assert NotN(x, n) / 2 == NotN(x / 2, n - 1);
      AndNotN(x / 2, n - 1);
    }
  }

  /** Within n bits, `w & (2^n - w)` isolates the lowest one bit. */
  lemma {:induction false} IsolateLowBit(w: nat, n: nat)
    requires 0 < w < Pow2(n)
    ensures AndN(w, Pow2(n) - w, n) == Pow2(LowBit(w))
    decreases n
  {
    var q := Pow2(n - 1);
    var x := w / 2;
    if w % 2 == 1 {
      assert (Pow2(n) - w) / 2 == q - 1 - x;
      NotNValue(x, n - 1);
      AndNotN(x, n - 1);
    } else {
      assert (Pow2(n) - w) / 2 == q - x;
      IsolateLowBit(x, n - 1);
    }
  }

  /** The lowest one bit of a non-zero word is the bit of its least member. */
  lemma LowBitLeast(w: Word)
    requires w != 0
    ensures LowBit(w) == Least(w)
  {
    var m := Least(w);
    var b := LowBit(w);
    assert Has(w, m);
    assert b in Members(w);
  }

  /** `Long.lowestOneBit` keeps only the bit of the least member. */
  lemma LowestOneBitLeast(w: Word)
    requires w != 0
    ensures LowestOneBit(w) == Pow2(Least(w))
  {
    LowBitLeast(w);
    Pow2Width();
    assert Neg(w) == Pow2(WIDTH) - w;
    IsolateLowBit(w, WIDTH);
  }

  // ---------------------------------------------------------------------
  // Long.highestOneBit
  // ---------------------------------------------------------------------

  /** The position of the highest one bit of a positive number. */
  function HighBit(w: nat): (r: nat)
    requires w > 0
    ensures Pow2(r) <= w < 2 * Pow2(r)
  {
    if w == 1 then 0 else 1 + HighBit(w / 2)
  }

  /** A number below 2^n has no one bit at n or above. */
  lemma {:induction false} HighZero(w: nat, n: nat, j: nat)
    requires w < Pow2(n) && n <= j
    ensures !BitOf(w, j)
    decreases n
  {
    if n == 0 {
      BitZero(j);
    } else {
      HighZero(w / 2, n - 1, j - 1);
    }
  }

  lemma {:induction false} HighBitSet(w: nat)
    requires w > 0
    ensures BitOf(w, HighBit(w))
    decreases w
  {
    if w != 1 {
      HighBitSet(w / 2);
    }
  }

  /**
   * `Long.highestOneBit(w)`: the word holding only the highest one bit of
   * w, or 0 for 0.
   */
  function HighestOneBit(w: Word): Word
  {
    if w == 0 then 0 else Pow2(HighBit(w))
  }

  /** The highest one bit of a non-zero word is the bit of its greatest member. */
  lemma HighestOneBitGreatest(w: Word)
    requires w != 0
    ensures HighBit(w) == Greatest(w)
    ensures HighestOneBit(w) == Pow2(Greatest(w))
  {
    var m := Greatest(w);
    var b := HighBit(w);
    HighBitSet(w);
    assert Has(w, m);
    if b < m {
      HighZero(w, b + 1, m);
    }
    Pow2Width();
    if WIDTH < b {
      Pow2Less(WIDTH, b);
    }
    assert b in Members(w);
  }

  // ---------------------------------------------------------------------
  // Arrays.binarySearch(long[], long)
  // ---------------------------------------------------------------------

  /** Strictly ascending in Java's signed order. */
  ghost predicate Ascending(a: seq<Word>)
  {
    forall i, j | 0 <= i < j < |a| :: Signed(a[i]) < Signed(a[j])
  }

  /**
   * The JDK's search loop over a[low..high], one iteration per call: the
   * index of key when found, otherwise -(insertion point + 1).
   */
  function Search(a: seq<Word>, key: Word, low: int, high: int): (r: int)
    requires 0 <= low <= high + 1 <= |a|
    ensures 0 <= r ==> low <= r <= high && a[r] == key
    ensures r < 0 ==> low <= -(r + 1) <= high + 1
    decreases high - low
  {
    if low > high then -(low + 1)
    else
      var mid := (low + high) / 2;
      var midVal := Signed(a[mid]);
      if midVal < Signed(key) then Search(a, key, mid + 1, high)
      else if midVal > Signed(key) then Search(a, key, low, mid - 1)
      else mid
  }

  /** `Arrays.binarySearch(a, key)`. */
  function BinarySearch(a: seq<Word>, key: Word): int
  {
    Search(a, key, 0, |a| - 1)
  }

  /** In an ascending array the search finds every element where it is. */
  lemma {:induction false} SearchFinds(a: seq<Word>, key: Word, low: int, high: int, m: int)
    requires 0 <= low <= m <= high < |a|
    requires Ascending(a) && a[m] == key
    ensures Search(a, key, low, high) == m
    decreases high - low
  {
    var mid := SearchStep(a, key, low, high);
    if mid < m {
      AscendingAt(a, mid, m);
      SearchFinds(a, key, mid + 1, high, m);
    } else if m < mid {
      AscendingAt(a, m, mid);
      SearchFinds(a, key, low, mid - 1, m);
    }
  }

  /** One iteration of the search loop, by the comparison at the midpoint. */
  lemma SearchStep(a: seq<Word>, key: Word, low: int, high: int) returns (mid: int)
    requires 0 <= low <= high < |a|
    ensures low <= mid <= high
    ensures Signed(a[mid]) < Signed(key) ==> Search(a, key, low, high) == Search(a, key, mid + 1, high)
    ensures Signed(a[mid]) > Signed(key) ==> Search(a, key, low, high) == Search(a, key, low, mid - 1)
    ensures a[mid] == key ==> Search(a, key, low, high) == mid
  {
    mid := (low + high) / 2;
  }

  lemma AscendingAt(a: seq<Word>, i: int, j: int)
    requires Ascending(a) && 0 <= i < j < |a|
    ensures Signed(a[i]) < Signed(a[j])
  {
  }
}

/**
 * A Java `long` as the set of bit positions it holds.
 *
 * A `Word` is the 64-bit two's-complement pattern of a `long`, read as an
 * unsigned number in [0, 2^64). Java's `&`, `|` and `~` work bit by bit and
 * are defined here by recursion over the bits; `+`, `-` and `<<` wrap around
 * modulo 2^64; `Signed` recovers the value Java compares with `<`.
 *
 * The abstraction function `Members` maps a word to the positions of its one
 * bits; the lemmas turn each word operation into a set operation.
 */
module Words {

  const WIDTH: nat := 64
  const MODULUS: int := 0x1_0000_0000_0000_0000
  /** The pattern of `Long.MIN_VALUE`: only bit 63 set. */
  const TOP: int := 0x8000_0000_0000_0000

  /** A Java `long`, as its bit pattern. */
  type Word = x: int | 0 <= x < MODULUS

  function Pow2(n: nat): (r: nat)
    ensures r >= 1
  {
    if n == 0 then 1 else 2 * Pow2(n - 1)
  }

  /** Bit i of a non-negative number. */
  predicate BitOf(w: nat, i: nat)
  {
    if i == 0 then w % 2 == 1 else BitOf(w / 2, i - 1)
  }

  /** Position i is one of the 64 positions of w and its bit is set. */
  predicate Has(w: Word, i: int)
  {
    0 <= i < WIDTH && BitOf(w, i)
  }

  /** The abstraction function: the positions of the one bits of w. */
  ghost function Members(w: Word): set<int>
  {
    set i | 0 <= i < WIDTH && Has(w, i)
  }

  /** The half-open integer interval [lo, hi). */
  ghost function Interval(lo: int, hi: int): set<int>
  {
    set i | lo <= i < hi && Between(lo, i, hi)
  }

  /** Membership in an interval, as a term the verifier can match on. */
  ghost predicate Between(lo: int, i: int, hi: int)
  {
    lo <= i < hi
  }

  /** [lo, hi) has hi - lo elements. */
  lemma {:induction false} IntervalSize(lo: int, hi: int)
    requires lo <= hi
    ensures |Interval(lo, hi)| == hi - lo
    decreases hi - lo
  {
    if lo < hi {
      IntervalSize(lo, hi - 1);
      assert Interval(lo, hi) == Interval(lo, hi - 1) + {hi - 1};
    }
  }

  /** All 64 positions. */
  ghost const POSITIONS: set<int> := Interval(0, WIDTH)

  // ---------------------------------------------------------------------
  // Java operators on words
  // ---------------------------------------------------------------------

  function AndN(a: nat, b: nat, n: nat): nat
  {
    if n == 0 then 0
    else 2 * AndN(a / 2, b / 2, n - 1) + (if a % 2 == 1 && b % 2 == 1 then 1 else 0)
  }

  function OrN(a: nat, b: nat, n: nat): nat
  {
    if n == 0 then 0
    else 2 * OrN(a / 2, b / 2, n - 1) + (if a % 2 == 1 || b % 2 == 1 then 1 else 0)
  }

  function NotN(a: nat, n: nat): nat
  {
    if n == 0 then 0 else 2 * NotN(a / 2, n - 1) + (if a % 2 == 1 then 0 else 1)
  }

  lemma {:induction false} AndNBound(a: nat, b: nat, n: nat)
    ensures AndN(a, b, n) < Pow2(n)
  {
    if n > 0 {
      AndNBound(a / 2, b / 2, n - 1);
    }
  }

  lemma {:induction false} OrNBound(a: nat, b: nat, n: nat)
    ensures OrN(a, b, n) < Pow2(n)
  {
    if n > 0 {
      OrNBound(a / 2, b / 2, n - 1);
    }
  }

  lemma {:induction false} NotNBound(a: nat, n: nat)
    ensures NotN(a, n) < Pow2(n)
  {
    if n > 0 {
      NotNBound(a / 2, n - 1);
    }
  }

  /** Java `a & b`. */
  function And(a: Word, b: Word): Word
  {
    Pow2Width();
    AndNBound(a, b, WIDTH);
    AndN(a, b, WIDTH)
  }

  /** Java `a | b`. */
  function Or(a: Word, b: Word): Word
  {
    Pow2Width();
    OrNBound(a, b, WIDTH);
    OrN(a, b, WIDTH)
  }

  /** Java `~a`. */
  function Not(a: Word): Word
  {
    Pow2Width();
    NotNBound(a, WIDTH);
    NotN(a, WIDTH)
  }

  /** Java `a + b` on longs. */
  function Add(a: Word, b: Word): Word
  {
    (a + b) % MODULUS
  }

  /** Java `a - b` on longs. */
  function Sub(a: Word, b: Word): Word
  {
    (a - b) % MODULUS
  }

  /** Java unary `-a` on longs. */
  function Neg(a: Word): Word
  {
    (0 - a) % MODULUS
  }

  function ShiftBy(w: Word, k: nat): Word
  {
    if k == 0 then w else (2 * ShiftBy(w, k - 1)) % MODULUS
  }

  /** Java `w << n`: the distance is taken modulo 64, as Java's `n & 63`. */
  function ShiftLeft(w: Word, n: int): Word
  {
    ShiftBy(w, n % WIDTH)
  }

  /** The value Java's signed comparisons see. */
  function Signed(w: Word): int
  {
    if w < TOP then w else w - MODULUS
  }

  // ---------------------------------------------------------------------
  // Powers of two
  // ---------------------------------------------------------------------

  lemma {:induction false} Pow2Add(a: nat, b: nat)
    ensures Pow2(a + b) == Pow2(a) * Pow2(b)
    decreases a
  {
    if a > 0 {
      Pow2Add(a - 1, b);
    }
  }

  lemma Pow2Width()
    ensures Pow2(WIDTH) == MODULUS
    ensures Pow2(WIDTH - 1) == TOP
  {
    assert Pow2(2) == 4;
    Pow2Add(2, 2);
    assert Pow2(4) == 0x10;
    Pow2Add(4, 4);
    assert Pow2(8) == 0x100;
    Pow2Add(8, 8);
    assert Pow2(16) == 0x1_0000;
    Pow2Add(16, 16);
    assert Pow2(32) == 0x1_0000_0000;
    assert Pow2(31) == 0x8000_0000;
    Pow2Add(32, 31);
    Pow2Add(32, 32);
  }

  lemma {:induction false} Pow2Less(i: nat, j: nat)
    requires i < j
    ensures Pow2(i) < Pow2(j)
    decreases j
  {
    if i < j - 1 {
      Pow2Less(i, j - 1);
    }
  }

  /** Every single-bit word `1L << k` fits in a long. */
  lemma Pow2Fits(k: nat)
    requires k < WIDTH
    ensures Pow2(k) <= TOP < MODULUS
  {
    Pow2Width();
    if k < WIDTH - 1 {
      Pow2Less(k, WIDTH - 1);
    }
  }

  // ---------------------------------------------------------------------
  // Single bits of the operators
  // ---------------------------------------------------------------------

  lemma {:induction false} BitAndN(a: nat, b: nat, n: nat, i: nat)
    requires i < n
    ensures BitOf(AndN(a, b, n), i) <==> BitOf(a, i) && BitOf(b, i)
    decreases i
  {
    var r := AndN(a, b, n);
    assert r / 2 == AndN(a / 2, b / 2, n - 1) && r % 2 == r - 2 * (r / 2);
    if i > 0 {
      BitAndN(a / 2, b / 2, n - 1, i - 1);
    }
  }

  lemma {:induction false} BitOrN(a: nat, b: nat, n: nat, i: nat)
    requires i < n
    ensures BitOf(OrN(a, b, n), i) <==> BitOf(a, i) || BitOf(b, i)
    decreases i
  {
    var r := OrN(a, b, n);
    assert r / 2 == OrN(a / 2, b / 2, n - 1) && r % 2 == r - 2 * (r / 2);
    if i > 0 {
      BitOrN(a / 2, b / 2, n - 1, i - 1);
    }
  }

  lemma {:induction false} BitNotN(a: nat, n: nat, i: nat)
    requires i < n
    ensures BitOf(NotN(a, n), i) <==> !BitOf(a, i)
    decreases i
  {
    var r := NotN(a, n);
    assert r / 2 == NotN(a / 2, n - 1) && r % 2 == r - 2 * (r / 2);
    if i > 0 {
      BitNotN(a / 2, n - 1, i - 1);
    }
  }

  lemma {:induction false} BitZero(i: nat)
    ensures !BitOf(0, i)
  {
    if i > 0 {
      BitZero(i - 1);
    }
  }

  /** The only bit of 2^k is bit k. */
  lemma {:induction false} BitPow2(k: nat, i: nat)
    ensures BitOf(Pow2(k), i) <==> i == k
    decreases k
  {
    if k > 0 && i > 0 {
      BitPow2(k - 1, i - 1);
    } else if i > 0 {
      BitZero(i - 1);
    }
  }

  /** 2^k - 1 has exactly the bits below k. */
  lemma {:induction false} BitLowMask(k: nat, i: nat)
    ensures BitOf(Pow2(k) - 1, i) <==> i < k
    decreases k
  {
    if k > 0 {
      assert (Pow2(k) - 1) / 2 == Pow2(k - 1) - 1;
      assert (Pow2(k) - 1) % 2 == 1;
    }
    if k > 0 && i > 0 {
      BitLowMask(k - 1, i - 1);
    } else if k == 0 {
      BitZero(i);
    }
  }

  /** A number below 2^n without a one bit below n is zero. */
  lemma {:induction false} ZeroBits(w: nat, n: nat)
    requires w < Pow2(n)
    requires forall i | 0 <= i < n :: !BitOf(w, i)
    ensures w == 0
    decreases n
  {
    if n > 0 {
      assert !BitOf(w, 0);
      forall i | 0 <= i < n - 1
        ensures !BitOf(w / 2, i)
      {
        assert !BitOf(w, i + 1);
      }
      ZeroBits(w / 2, n - 1);
    }
  }

  /** Two numbers below 2^n with the same bits below n are equal. */
  lemma {:induction false} SameBits(a: nat, b: nat, n: nat)
    requires a < Pow2(n) && b < Pow2(n)
    requires forall i | 0 <= i < n :: BitOf(a, i) == BitOf(b, i)
    ensures a == b
    decreases n
  {
    if n > 0 {
      assert BitOf(a, 0) == BitOf(b, 0);
      forall i | 0 <= i < n - 1
        ensures BitOf(a / 2, i) == BitOf(b / 2, i)
      {
        assert BitOf(a, i + 1) == BitOf(b, i + 1);
      }
      SameBits(a / 2, b / 2, n - 1);
    }
  }

  // ---------------------------------------------------------------------
  // The abstraction function
  // ---------------------------------------------------------------------

  lemma MembersBounded(w: Word)
    ensures Members(w) <= POSITIONS
  {
  }

  /** Only the zero word has no members. */
  lemma MembersEmpty(w: Word)
    ensures Members(w) == {} <==> w == 0
  {
    if Members(w) == {} {
      Pow2Width();
      forall i | 0 <= i < WIDTH
        ensures !BitOf(w, i)
      {
        assert i !in Members(w);
      }
      ZeroBits(w, WIDTH);
    } else {
      var i :| i in Members(w);
      if w == 0 {
        BitPow2(0, i);
        BitLowMask(0, i);
        assert false;
      }
    }
  }

  /** A word is determined by its members. */
  lemma MembersInjective(a: Word, b: Word)
    ensures Members(a) == Members(b) <==> a == b
  {
    if Members(a) == Members(b) {
      Pow2Width();
      forall i | 0 <= i < WIDTH
        ensures BitOf(a, i) == BitOf(b, i)
      {
        assert i in Members(a) <==> i in Members(b);
      }
      SameBits(a, b, WIDTH);
    }
  }

  lemma MembersAnd(a: Word, b: Word)
    ensures Members(And(a, b)) == Members(a) * Members(b)
  {
    forall i | 0 <= i < WIDTH
      ensures Has(And(a, b), i) <==> Has(a, i) && Has(b, i)
    {
      BitAndN(a, b, WIDTH, i);
    }
  }

  lemma MembersOr(a: Word, b: Word)
    ensures Members(Or(a, b)) == Members(a) + Members(b)
  {
    forall i | 0 <= i < WIDTH
      ensures Has(Or(a, b), i) <==> Has(a, i) || Has(b, i)
    {
      BitOrN(a, b, WIDTH, i);
    }
  }

  lemma MembersNot(a: Word)
    ensures Members(Not(a)) == POSITIONS - Members(a)
  {
    forall i | 0 <= i < WIDTH
      ensures Has(Not(a), i) <==> !Has(a, i)
    {
      BitNotN(a, WIDTH, i);
    }
  }

  /** Java `a & ~b` is set difference. */
  lemma MembersAndNot(a: Word, b: Word)
    ensures Members(And(a, Not(b))) == Members(a) - Members(b)
  {
    MembersAnd(a, Not(b));
    MembersNot(b);
  }

  /** `1L << k` as a number. */
  lemma {:induction false} ShiftOne(k: nat)
    requires k < WIDTH
    ensures ShiftBy(1, k) == Pow2(k)
    decreases k
  {
    Pow2Fits(k);
    if k > 0 {
      Pow2Fits(k - 1);
      ShiftOne(k - 1);
    }
  }

  /** The single-bit word `1L << k` holds exactly k. */
  lemma MembersBit(k: int)
    requires 0 <= k < WIDTH
    ensures ShiftLeft(1, k) == Pow2(k)
    ensures Members(ShiftLeft(1, k)) == {k}
  {
    ShiftOne(k);
    forall i | 0 <= i < WIDTH
      ensures Has(Pow2(k), i) <==> i == k
    {
      BitPow2(k, i);
    }
  }

  /** `(1L << k) - 1L` holds exactly the positions below k. */
  lemma MembersLowMask(k: int)
    requires 0 <= k < WIDTH
    ensures Sub(ShiftLeft(1, k), 1) == Pow2(k) - 1
    ensures Members(Sub(ShiftLeft(1, k), 1)) == Interval(0, k)
  {
    MembersBit(k);
    Pow2Fits(k);
    var m: Word := Pow2(k) - 1;
    forall i | 0 <= i < WIDTH
      ensures Has(m, i) <==> i < k
    {
      BitLowMask(k, i);
    }
  }

  /** `~((1L << k) - 1L)` holds exactly the positions from k on. */
  lemma MembersHighMask(k: int)
    requires 0 <= k < WIDTH
    ensures Members(Not(Sub(ShiftLeft(1, k), 1))) == Interval(k, WIDTH)
  {
    MembersLowMask(k);
    MembersNot(Sub(ShiftLeft(1, k), 1));
  }

  /**
   * Adding `Long.MIN_VALUE` flips bit 63, so the signed value of the sum is
   * the unsigned value minus 2^63: signed order of the sums is unsigned order.
   */
  lemma SignedFlip(x: Word)
    ensures Signed(Add(x, TOP)) == x - TOP
  {
  }

  // ---------------------------------------------------------------------
  // Least and greatest member
  // ---------------------------------------------------------------------

  ghost predicate IsLeast(m: int, s: set<int>)
  {
    m in s && forall j :: j in s ==> m <= j
  }

  ghost predicate IsGreatest(m: int, s: set<int>)
  {
    m in s && forall j :: j in s ==> j <= m
  }

  ghost function LeastFrom(w: Word, k: int): (m: int)
    requires 0 <= k <= WIDTH
    requires Members(w) != {}
    requires forall j :: j in Members(w) ==> k <= j
    ensures IsLeast(m, Members(w))
    decreases WIDTH - k
  {
    if k in Members(w) then k else LeastFrom(w, k + 1)
  }

  ghost function GreatestFrom(w: Word, k: int): (m: int)
    requires -1 <= k < WIDTH
    requires Members(w) != {}
    requires forall j :: j in Members(w) ==> j <= k
    ensures IsGreatest(m, Members(w))
    decreases k
  {
    if k in Members(w) then k else GreatestFrom(w, k - 1)
  }

  /** The least member of a non-zero word. */
  ghost function Least(w: Word): (m: int)
    requires w != 0
    ensures IsLeast(m, Members(w)) && 0 <= m < WIDTH
  {
    MembersEmpty(w);
    LeastFrom(w, 0)
  }

  /** The greatest member of a non-zero word. */
  ghost function Greatest(w: Word): (m: int)
    requires w != 0
    ensures IsGreatest(m, Members(w)) && 0 <= m < WIDTH
  {
    MembersEmpty(w);
    GreatestFrom(w, WIDTH - 1)
  }
}

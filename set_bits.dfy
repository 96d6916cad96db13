/**
 * The static helpers of SmallIntegerSet over a word `bits`: membership tests,
 * size, emptiness, first and last element, and `log2`, which turns a
 * single-bit word back into its position by binary search in
 * `ONE_BIT_INDICES`. Also the ascending sequence of members that iteration,
 * `toArray`, `forEach` and `toString` produce.
 */
module SetBits {
  import opened Outcomes
  import opened Words
  import opened Jdk

  /** Smallest element the set supports. */
  const MIN_VALUE: int := 0
  /** Largest element the set supports. */
  const MAX_VALUE: int := 63

  // ---------------------------------------------------------------------
  // log2 and its table
  // ---------------------------------------------------------------------

  /** Entry i of `ONE_BIT_INDICES`: `(1L << i) + Long.MIN_VALUE`. */
  function OneBitIndex(i: nat): Word
    requires i < WIDTH
  {
    (Pow2(i) + TOP) % MODULUS
  }

  /**
   * The table `ONE_BIT_INDICES`. Adding `Long.MIN_VALUE` makes Java's signed
   * order of the entries agree with the unsigned order of the single-bit words.
   */
  const ONE_BIT_INDICES: seq<Word> := OneBitIndices(WIDTH)

  /** The first n entries of the table. */
  function OneBitIndices(n: nat): (r: seq<Word>)
    requires n <= WIDTH
    ensures |r| == n
    ensures forall i | 0 <= i < n :: r[i] == OneBitIndex(i)
  {
    if n == 0 then [] else OneBitIndices(n - 1) + [OneBitIndex(n - 1)]
  }

  /** The position of the single one bit of `lowestOneBit`. */
  function Log2(lowestOneBit: Word): int
  {
    BinarySearch(ONE_BIT_INDICES, Add(lowestOneBit, TOP))
  }

  /** The table is strictly ascending in signed order, so binary search applies. */
  lemma TableAscending()
    ensures |ONE_BIT_INDICES| == WIDTH
    ensures Ascending(ONE_BIT_INDICES)
  {
    forall i, j | 0 <= i < j < WIDTH
      ensures Signed(ONE_BIT_INDICES[i]) < Signed(ONE_BIT_INDICES[j])
    {
      TableEntry(i);
      TableEntry(j);
      Pow2Less(i, j);
    }
  }

  lemma TableEntry(i: nat)
    requires i < WIDTH
    ensures Pow2(i) < MODULUS
    ensures ONE_BIT_INDICES[i] == Add(Pow2(i), TOP)
    ensures Signed(ONE_BIT_INDICES[i]) == Pow2(i) - TOP
  {
    Pow2Fits(i);
    SignedFlip(Pow2(i));
  }

  /** `log2(1L << i) == i` for every supported position. */
  lemma Log2Bit(i: int)
    requires 0 <= i < WIDTH
    ensures Log2(ShiftLeft(1, i)) == i
  {
    MembersBit(i);
    TableAscending();
    TableEntry(i);
    SearchFinds(ONE_BIT_INDICES, Add(Pow2(i), TOP), 0, WIDTH - 1, i);
  }

  // ---------------------------------------------------------------------
  // Membership
  // ---------------------------------------------------------------------

  /** `isSetNoCheck(bits, i)`: `(bits & (1L << i)) != 0`. */
  function IsSetNoCheck(bits: Word, i: int): bool
  {
    And(bits, ShiftLeft(1, i)) != 0
  }

  /** For a supported position the unchecked test is membership. */
  lemma IsSetNoCheckMember(bits: Word, i: int)
    requires 0 <= i < WIDTH
    ensures IsSetNoCheck(bits, i) <==> i in Members(bits)
  {
    MembersBit(i);
    MembersAnd(bits, ShiftLeft(1, i));
    MembersEmpty(And(bits, ShiftLeft(1, i)));
    if i in Members(bits) {
      assert i in Members(And(bits, ShiftLeft(1, i)));
    }
  }

  /** `isSet(bits, i)`: false outside [MIN_VALUE, MAX_VALUE]. */
  function IsSet(bits: Word, i: int): (r: bool)
    ensures r <==> i in Members(bits)
  {
    if i < MIN_VALUE then false
    else if i > MAX_VALUE then false
    else
      IsSetNoCheckMember(bits, i);
      IsSetNoCheck(bits, i)
  }

  /** `isSupported(i)`: the element can be stored at all. */
  function IsSupported(i: int): (r: bool)
    ensures r <==> i in POSITIONS
  {
    i >= MIN_VALUE && i <= MAX_VALUE
  }

  /** `isSupported(mask, i)`: the element lies inside the mask of a view. */
  function IsSupportedIn(mask: Word, i: int): (r: bool)
    ensures r <==> i in Members(mask)
  {
    if IsSupported(i) then
      MembersBit(i);
      MembersAnd(ShiftLeft(1, i), mask);
      MembersEmpty(And(ShiftLeft(1, i), mask));
      assert i in Members(mask) <==> i in Members(And(ShiftLeft(1, i), mask));
      And(ShiftLeft(1, i), mask) != 0
    else false
  }

  /** `size(bits)`: `Long.bitCount(bits)`. */
  function Size(bits: Word): (r: nat)
    ensures r == |Members(bits)|
    ensures r <= WIDTH
  {
    BitCountMembers(bits);
    MembersBounded(bits);
    CardSubset(Members(bits), POSITIONS);
    IntervalSize(0, WIDTH);
    BitCount(bits)
  }

  /** `isEmpty(bits)`. */
  function IsEmpty(bits: Word): (r: bool)
    ensures r <==> Members(bits) == {}
  {
    MembersEmpty(bits);
    bits == 0
  }

  /** `first(bits)`: the smallest element, found by `log2(Long.lowestOneBit(bits))`. */
  function First(bits: Word): (r: Result<int>)
    ensures r.Err? <==> Members(bits) == {}
    ensures r.Err? ==> r.error == NoSuchElement
    ensures r.Ok? ==> IsLeast(r.value, Members(bits))
  {
    MembersEmpty(bits);
    if bits == 0 then Err(NoSuchElement)
    else
      LowestOneBitLeast(bits);
      MembersBit(Least(bits));
      Log2Bit(Least(bits));
      Ok(Log2(LowestOneBit(bits)))
  }

  /** `last(bits)`: the largest element, found by `log2(Long.highestOneBit(bits))`. */
  function Last(bits: Word): (r: Result<int>)
    ensures r.Err? <==> Members(bits) == {}
    ensures r.Err? ==> r.error == NoSuchElement
    ensures r.Ok? ==> IsGreatest(r.value, Members(bits))
  {
    MembersEmpty(bits);
    if bits == 0 then Err(NoSuchElement)
    else
      HighestOneBitGreatest(bits);
      MembersBit(Greatest(bits));
      Log2Bit(Greatest(bits));
      Ok(Log2(HighestOneBit(bits)))
  }

  lemma CardSubset(a: set<int>, b: set<int>)
    requires a <= b
    ensures |a| <= |b|
  {
    assert b == a + (b - a);
  }

  // ---------------------------------------------------------------------
  // The members in ascending order
  // ---------------------------------------------------------------------

  /** The members of w in [lo, hi), in ascending order. */
  function ElementsIn(w: Word, lo: int, hi: int): seq<int>
    decreases hi - lo
  {
    if hi <= lo then []
    else ElementsIn(w, lo, hi - 1) + (if Has(w, hi - 1) then [hi - 1] else [])
  }

  /** ElementsIn lists exactly the members in [lo, hi), strictly ascending. */
  lemma {:induction false} ElementsInSpec(w: Word, lo: int, hi: int)
    ensures forall x :: x in ElementsIn(w, lo, hi) <==> lo <= x < hi && Has(w, x)
    ensures forall i, j | 0 <= i < j < |ElementsIn(w, lo, hi)| :: ElementsIn(w, lo, hi)[i] < ElementsIn(w, lo, hi)[j]
    decreases hi - lo
  {
    if lo < hi {
      ElementsInSpec(w, lo, hi - 1);
      var prefix := ElementsIn(w, lo, hi - 1);
      assert forall k | 0 <= k < |prefix| :: prefix[k] in prefix;
    }
  }

  /** One more position scanned. */
  lemma ElementsStep(w: Word, lo: int, i: int)
    requires lo <= i
    ensures i in Members(w) ==> ElementsIn(w, lo, i + 1) == ElementsIn(w, lo, i) + [i]
    ensures i !in Members(w) ==> ElementsIn(w, lo, i + 1) == ElementsIn(w, lo, i)
  {
  }

  /** One more position scanned with the unchecked test, as the scans of the set do. */
  lemma ScanStep(w: Word, lo: int, i: int)
    requires 0 <= lo <= i < WIDTH
    ensures IsSetNoCheck(w, i) ==> ElementsIn(w, lo, i + 1) == ElementsIn(w, lo, i) + [i]
    ensures !IsSetNoCheck(w, i) ==> ElementsIn(w, lo, i + 1) == ElementsIn(w, lo, i)
  {
    IsSetNoCheckMember(w, i);
  }

  /** All members of w in ascending order. */
  function Elements(w: Word): seq<int>
  {
    ElementsIn(w, MIN_VALUE, MAX_VALUE + 1)
  }

  /** The ascending sequence holds the members and nothing else, strictly ascending. */
  lemma ElementsOrder(w: Word)
    ensures forall x :: x in Elements(w) <==> x in Members(w)
    ensures forall i, j | 0 <= i < j < |Elements(w)| :: Elements(w)[i] < Elements(w)[j]
  {
    ElementsInSpec(w, MIN_VALUE, MAX_VALUE + 1);
  }

  lemma {:induction false} ElementsSplit(w: Word, lo: int, mid: int, hi: int)
    requires lo <= mid <= hi
    ensures ElementsIn(w, lo, hi) == ElementsIn(w, lo, mid) + ElementsIn(w, mid, hi)
    decreases hi - mid
  {
    if mid < hi {
      ElementsSplit(w, lo, mid, hi - 1);
    }
  }

  /** Peeling the smallest candidate off the front, as a forward scan does. */
  lemma ElementsFront(w: Word, lo: int, hi: int)
    requires lo < hi
    ensures ElementsIn(w, lo, hi) == (if Has(w, lo) then [lo] else []) + ElementsIn(w, lo + 1, hi)
  {
    ElementsSplit(w, lo, lo + 1, hi);
  }

  /** An ascending sequence has as many elements as its set. */
  lemma {:induction false} AscendingCard(s: seq<int>)
    requires forall i, j | 0 <= i < j < |s| :: s[i] < s[j]
    ensures |set x | x in s| == |s|
  {
    if s != [] {
      var t := s[..|s| - 1];
      AscendingCard(t);
      assert (set x | x in s) == (set x | x in t) + {s[|s| - 1]};
    }
  }

  /** The ascending members are exactly the members, each once. */
  lemma ElementsMembers(w: Word)
    ensures (set x | x in Elements(w)) == Members(w)
    ensures |Elements(w)| == |Members(w)| == Size(w)
  {
    ElementsInSpec(w, MIN_VALUE, MAX_VALUE + 1);
    AscendingCard(Elements(w));
  }
}

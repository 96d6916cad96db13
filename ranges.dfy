/**
 * The mask arithmetic of the range queries `subSet`, `headSet` and
 * `tailSet`, on the owner and on a view. Each query answers with the owner
 * itself, the shared empty set, or a new view of one of three kinds over a
 * contiguous mask; the classes in SmallIntegerSets turn that answer into
 * objects.
 */
module Ranges {
  import opened Outcomes
  import opened Words
  import opened Jdk
  import opened SetBits

  /** SmallIntegerHeadSet, SmallIntegerTailSet and SmallIntegerSubSet. */
  datatype ViewKind = HeadView | TailView | SubView

  /**
   * The answer of a range query: the owner itself, the empty set of
   * `Collections.emptyNavigableSet()`, or a new view of the given kind.
   */
  datatype Range = WholeSet | EmptyRange | MaskedRange(kind: ViewKind, mask: Word)

  /**
   * A view of this kind and mask covers exactly [lo, hi): a head view starts
   * at 0, a tail view ends at 64, a bounded view touches neither end, and
   * none covers the whole domain.
   */
  ghost predicate ViewShape(kind: ViewKind, mask: Word, lo: int, hi: int)
  {
    && MIN_VALUE <= lo < hi <= MAX_VALUE + 1
    && Members(mask) == Interval(lo, hi)
    && match kind
       case HeadView => lo == MIN_VALUE && hi <= MAX_VALUE
       case TailView => MIN_VALUE < lo && hi == MAX_VALUE + 1
       case SubView => MIN_VALUE < lo && hi <= MAX_VALUE
  }

  /** The answer stands for exactly the positions [lo, hi). */
  ghost predicate Denotes(r: Range, lo: int, hi: int)
  {
    match r
    case WholeSet => lo == MIN_VALUE && hi == MAX_VALUE + 1
    case EmptyRange => MIN_VALUE <= lo == hi <= MAX_VALUE + 1
    case MaskedRange(kind, mask) => ViewShape(kind, mask, lo, hi)
  }

  /** A view mask as the view classes hold it: non-empty and of the shape its kind requires. */
  ghost predicate Contiguous(kind: ViewKind, mask: Word)
  {
    mask != 0 && ViewShape(kind, mask, Least(mask), Greatest(mask) + 1)
  }

  /** The bounds of a view shape are the least and one past the greatest mask position. */
  lemma ShapeBounds(kind: ViewKind, mask: Word, lo: int, hi: int)
    requires ViewShape(kind, mask, lo, hi)
    ensures Contiguous(kind, mask)
    ensures Least(mask) == lo && Greatest(mask) + 1 == hi
  {
    assert lo in Members(mask);
    MembersEmpty(mask);
    assert hi - 1 in Members(mask);
  }

  /** The positions an answer stands for. */
  ghost function RangeMembers(r: Range): set<int>
  {
    match r
    case WholeSet => POSITIONS
    case EmptyRange => {}
    case MaskedRange(_, mask) => Members(mask)
  }

  /** An answer for [lo, hi) has those members; it is the owner exactly for the whole domain and empty exactly when lo == hi. */
  lemma DenotesMembers(r: Range, lo: int, hi: int)
    requires Denotes(r, lo, hi)
    ensures RangeMembers(r) == Interval(lo, hi)
    ensures r == WholeSet <==> lo == MIN_VALUE && hi == MAX_VALUE + 1
    ensures r == EmptyRange <==> lo == hi
  {
    if r.EmptyRange? {
      assert Interval(lo, hi) == {};
    }
  }

  // ---------------------------------------------------------------------
  // Owner range queries
  // ---------------------------------------------------------------------

  /** `(1L << k) - 1L`: the positions below k. */
  function HeadMask(k: int): Word
  {
    Sub(ShiftLeft(1, k), 1)
  }

  /** `~((1L << k) - 1L)`: the positions from k on. */
  function TailMask(k: int): Word
  {
    Not(Sub(ShiftLeft(1, k), 1))
  }

  /** `headSet(toElement)` on the owner. */
  function HeadSetRange(toElement: int): Result<Range>
  {
    var endInclusive := toElement - 1;
    if !IsSupported(endInclusive) then Err(IllegalArgument)
    else if endInclusive == MAX_VALUE then Ok(WholeSet)
    else Ok(MaskedRange(HeadView, HeadMask(endInclusive + 1)))
  }

  /** `tailSet(fromElement)` on the owner. */
  function TailSetRange(fromElement: int): Result<Range>
  {
    if !IsSupported(fromElement) then Err(IllegalArgument)
    else if fromElement == MIN_VALUE then Ok(WholeSet)
    else Ok(MaskedRange(TailView, TailMask(fromElement)))
  }

  /** `subSet(fromElement, toElement)` on the owner, checks in the order of the source. */
  function SubSetRange(fromElement: int, toElement: int): Result<Range>
  {
    var startInclusive := fromElement;
    var endInclusive := toElement - 1;
    if !IsSupported(startInclusive) then Err(IllegalArgument)
    else if !IsSupported(endInclusive) then Err(IllegalArgument)
    else if startInclusive == MIN_VALUE && endInclusive == MAX_VALUE then Ok(WholeSet)
    else if startInclusive > endInclusive + 1 then Err(IllegalArgument)
    else if startInclusive == MIN_VALUE then HeadSetRange(toElement)
    else if endInclusive == MAX_VALUE then TailSetRange(fromElement)
    else if startInclusive == endInclusive + 1 then Ok(EmptyRange)
    else Ok(MaskedRange(SubView, And(HeadMask(endInclusive + 1), TailMask(fromElement))))
  }

  /** `headSet(to)` succeeds exactly for 1 <= to <= 64 and stands for [0, to). */
  lemma HeadSetRangeSpec(toElement: int)
    ensures HeadSetRange(toElement).Ok? <==> MIN_VALUE < toElement <= MAX_VALUE + 1
    ensures HeadSetRange(toElement).Err? ==> HeadSetRange(toElement).error == IllegalArgument
    ensures HeadSetRange(toElement).Ok? ==> Denotes(HeadSetRange(toElement).value, MIN_VALUE, toElement)
  {
    if MIN_VALUE < toElement <= MAX_VALUE {
      MembersLowMask(toElement);
    }
  }

  /** `tailSet(from)` succeeds exactly for 0 <= from <= 63 and stands for [from, 64). */
  lemma TailSetRangeSpec(fromElement: int)
    ensures TailSetRange(fromElement).Ok? <==> MIN_VALUE <= fromElement <= MAX_VALUE
    ensures TailSetRange(fromElement).Err? ==> TailSetRange(fromElement).error == IllegalArgument
    ensures TailSetRange(fromElement).Ok? ==> Denotes(TailSetRange(fromElement).value, fromElement, MAX_VALUE + 1)
  {
    if MIN_VALUE < fromElement <= MAX_VALUE {
      MembersHighMask(fromElement);
    }
  }

  /**
   * `subSet(from, to)` succeeds exactly when from and to - 1 are supported
   * and from <= to, and stands for [from, to).
   */
  lemma SubSetRangeSpec(fromElement: int, toElement: int)
    ensures SubSetRange(fromElement, toElement).Ok? <==>
              MIN_VALUE <= fromElement <= MAX_VALUE && MIN_VALUE < toElement <= MAX_VALUE + 1
              && fromElement <= toElement
    ensures SubSetRange(fromElement, toElement).Err? ==>
              SubSetRange(fromElement, toElement).error == IllegalArgument
    ensures SubSetRange(fromElement, toElement).Ok? ==>
              Denotes(SubSetRange(fromElement, toElement).value, fromElement, toElement)
  {
    HeadSetRangeSpec(toElement);
    TailSetRangeSpec(fromElement);
    if MIN_VALUE < fromElement < toElement <= MAX_VALUE {
      var head := HeadMask(toElement);
      var tail := TailMask(fromElement);
      MembersLowMask(toElement);
      MembersHighMask(fromElement);
      MembersAnd(head, tail);
      assert Members(And(head, tail)) == Interval(fromElement, toElement);
    }
  }

  // ---------------------------------------------------------------------
  // View range queries
  // ---------------------------------------------------------------------

  /** `subSet(from, to)` on a view: both bounds checked against the mask, then the owner's query. */
  function ViewSubSetRange(mask: Word, fromElement: int, toElement: int): Result<Range>
  {
    if !IsSupportedIn(mask, fromElement) then Err(IllegalArgument)
    else if !IsSupportedIn(mask, toElement - 1) then Err(IllegalArgument)
    else SubSetRange(fromElement, toElement)
  }

  /**
   * `headSet(to)` on a view: a head view asks the owner's `headSet`, the
   * other kinds ask the owner's `subSet` from the lowest position of the mask.
   */
  function ViewHeadSetRange(kind: ViewKind, mask: Word, toElement: int): Result<Range>
  {
    if !IsSupportedIn(mask, toElement - 1) then Err(IllegalArgument)
    else if kind == HeadView then HeadSetRange(toElement)
    else SubSetRange(Log2(LowestOneBit(mask)), toElement)
  }

  /**
   * `tailSet(from)` on a view: a tail view asks the owner's `tailSet`, the
   * other kinds ask their own `subSet` up to the highest position of the mask.
   */
  function ViewTailSetRange(kind: ViewKind, mask: Word, fromElement: int): Result<Range>
  {
    if !IsSupportedIn(mask, fromElement) then Err(IllegalArgument)
    else if kind == TailView then TailSetRange(fromElement)
    else ViewSubSetRange(mask, fromElement, Log2(HighestOneBit(mask)) + 1)
  }

  /** The lowest and highest mask positions that `headSet` and `tailSet` recover. */
  lemma ViewBounds(kind: ViewKind, mask: Word, lo: int, hi: int)
    requires ViewShape(kind, mask, lo, hi)
    ensures Log2(LowestOneBit(mask)) == lo
    ensures Log2(HighestOneBit(mask)) + 1 == hi
  {
    assert lo in Members(mask) && hi - 1 in Members(mask);
    var first := First(mask);
    var last := Last(mask);
    assert first == Ok(Log2(LowestOneBit(mask)));
    assert last == Ok(Log2(HighestOneBit(mask)));
  }

  /** On a view over [lo, hi), `subSet(from, to)` succeeds exactly for lo <= from <= to <= hi with from < hi and lo < to. */
  lemma ViewSubSetRangeSpec(kind: ViewKind, mask: Word, lo: int, hi: int, fromElement: int, toElement: int)
    requires ViewShape(kind, mask, lo, hi)
    ensures ViewSubSetRange(mask, fromElement, toElement).Ok? <==>
              lo <= fromElement <= toElement <= hi && fromElement < hi && lo < toElement
    ensures ViewSubSetRange(mask, fromElement, toElement).Err? ==>
              ViewSubSetRange(mask, fromElement, toElement).error == IllegalArgument
    ensures ViewSubSetRange(mask, fromElement, toElement).Ok? ==>
              Denotes(ViewSubSetRange(mask, fromElement, toElement).value, fromElement, toElement)
  {
    SubSetRangeSpec(fromElement, toElement);
  }

  /** On a view over [lo, hi), `headSet(to)` succeeds exactly for lo < to <= hi and stands for [lo, to). */
  lemma ViewHeadSetRangeSpec(kind: ViewKind, mask: Word, lo: int, hi: int, toElement: int)
    requires ViewShape(kind, mask, lo, hi)
    ensures ViewHeadSetRange(kind, mask, toElement).Ok? <==> lo < toElement <= hi
    ensures ViewHeadSetRange(kind, mask, toElement).Err? ==>
              ViewHeadSetRange(kind, mask, toElement).error == IllegalArgument
    ensures ViewHeadSetRange(kind, mask, toElement).Ok? ==>
              Denotes(ViewHeadSetRange(kind, mask, toElement).value, lo, toElement)
  {
    if IsSupportedIn(mask, toElement - 1) {
      if kind == HeadView {
        HeadSetRangeSpec(toElement);
      } else {
        ViewBounds(kind, mask, lo, hi);
        SubSetRangeSpec(lo, toElement);
      }
    }
  }

  /**
   * Outside a tail view over [lo, hi), `tailSet(from)` is the view's own
   * `subSet(from, hi)`: the bound recovered from the highest mask bit is hi.
   */
  lemma ViewTailIsSubSet(kind: ViewKind, mask: Word, lo: int, hi: int, fromElement: int)
    requires ViewShape(kind, mask, lo, hi) && kind != TailView
    ensures ViewTailSetRange(kind, mask, fromElement) == ViewSubSetRange(mask, fromElement, hi)
  {
    ViewBounds(kind, mask, lo, hi);
  }

  /** On a view over [lo, hi), `tailSet(from)` succeeds exactly for lo <= from < hi and stands for [from, hi). */
  lemma ViewTailSetRangeSpec(kind: ViewKind, mask: Word, lo: int, hi: int, fromElement: int)
    requires ViewShape(kind, mask, lo, hi)
    ensures ViewTailSetRange(kind, mask, fromElement).Ok? <==> lo <= fromElement < hi
    ensures ViewTailSetRange(kind, mask, fromElement).Err? ==>
              ViewTailSetRange(kind, mask, fromElement).error == IllegalArgument
    ensures ViewTailSetRange(kind, mask, fromElement).Ok? ==>
              Denotes(ViewTailSetRange(kind, mask, fromElement).value, fromElement, hi)
  {
    if IsSupportedIn(mask, fromElement) {
      if kind == TailView {
        TailSetRangeSpec(fromElement);
      } else {
        ViewTailIsSubSet(kind, mask, lo, hi, fromElement);
        ViewSubSetRangeSpec(kind, mask, lo, hi, fromElement, hi);
      }
    }
  }

  /**
   * `subSet(1, 3).subSet(2, 3)` is a bounded view holding only position 2:
   * it refuses 1, which the outer view held, and 3, which the owner supports,
   * and it refuses 0.
   */
  lemma NestedSubSetBounds()
    ensures SubSetRange(1, 3).Ok? && SubSetRange(1, 3).value.MaskedRange?
    ensures var outer := SubSetRange(1, 3).value.mask;
            var inner := ViewSubSetRange(outer, 2, 3);
            && IsSupportedIn(outer, 2) && IsSupportedIn(outer, 1)
            && inner.Ok? && inner.value.MaskedRange? && inner.value.kind == SubView
            && IsSupportedIn(inner.value.mask, 2)
            && !IsSupportedIn(inner.value.mask, 3)
            && !IsSupportedIn(inner.value.mask, 0)
            && !IsSupportedIn(inner.value.mask, 1)
  {
    SubSetRangeSpec(1, 3);
    var outer := SubSetRange(1, 3).value;
    DenotesMembers(outer, 1, 3);
    ViewSubSetRangeSpec(outer.kind, outer.mask, 1, 3, 2, 3);
    var inner := ViewSubSetRange(outer.mask, 2, 3).value;
    DenotesMembers(inner, 2, 3);
  }
}

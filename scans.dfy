/**
 * The static methods of SmallIntegerSet that scan the 64 positions of a word
 * `bits` from 0 upwards: `forEach`, both `toArray` forms, `toStringNotEmpty`,
 * `estimateToStringSize`, `hashCode`, and `containsAllNonThrowing`, which
 * walks a foreign collection instead. Owner and views share them.
 */
module SetScans {
  import opened Outcomes
  import opened Words
  import opened SetBits
  import opened Rendering
  import opened SetSums

  /**
   * An element of a collection of unknown element type: an `Integer`, null,
   * or any other object, told apart from other objects by its identity.
   */
  datatype Element = IntegerElement(value: int) | NullElement | OtherElement(identity: int)

  /** The elements as the non-null references `toArray(T[])` stores. */
  function Boxed(s: seq<int>): (r: seq<Option<int>>)
    ensures |r| == |s|
    ensures forall k | 0 <= k < |s| :: r[k] == Some(s[k])
  {
    if s == [] then [] else Boxed(s[..|s| - 1]) + [Some(s[|s| - 1])]
  }

  /**
   * `forEach(bits, action)`: the elements handed to the action, in the
   * order the action receives them.
   */
  method ForEach(bits: Word) returns (accepted: seq<int>)
    ensures accepted == Elements(bits)
  {
    accepted := [];
    var i := MIN_VALUE;
    while i <= MAX_VALUE
      invariant MIN_VALUE <= i <= MAX_VALUE + 1
      invariant accepted == ElementsIn(bits, MIN_VALUE, i)
    {
      ScanStep(bits, MIN_VALUE, i);
      if IsSetNoCheck(bits, i) {
        accepted := accepted + [i];
      }
      i := i + 1;
    }
  }

  /** `toArray(bits)`: a new array of exactly the elements, ascending. */
  method ToArray(bits: Word) returns (result: array<int>)
    ensures fresh(result)
    ensures result[..] == Elements(bits)
  {
    result := new int[Size(bits)];
    var current := 0;
    var i := MIN_VALUE;
    ghost var seen: seq<int> := [];
    while i <= MAX_VALUE
      invariant MIN_VALUE <= i <= MAX_VALUE + 1
      invariant seen == ElementsIn(bits, MIN_VALUE, i)
      invariant current == |seen| <= result.Length
      invariant result[..current] == seen
    {
      CopyStep(bits, i);
      if IsSetNoCheck(bits, i) {
        ghost var prefix := result[..current];
        result[current] := i;
        assert result[..current + 1] == prefix + [i];
        current := current + 1;
        seen := seen + [i];
      }
      i := i + 1;
    }
    CopyDone(bits, seen);
    assert result[..] == result[..current];
  }

  /**
   * `toArray(bits, a)`: the elements go into `a` when they fit, followed by
   * a null when there is room for one, and into a new array otherwise.
   */
  method ToArrayInto(bits: Word, a: array<Option<int>>) returns (result: array<Option<int>>)
    modifies a
    ensures a.Length < Size(bits) ==> fresh(result) && result.Length == Size(bits) && unchanged(a)
    ensures Size(bits) <= a.Length ==> result == a
    ensures Size(bits) <= result.Length && result[..Size(bits)] == Boxed(Elements(bits))
    ensures Size(bits) < a.Length ==>
              result[Size(bits)] == None && result[Size(bits) + 1..] == old(a[Size(bits) + 1..])
  {
    var size := Size(bits);
    if a.Length < size {
      result := new Option<int>[size](_ => None);
    } else {
      result := a;
      if a.Length > size {
        a[size] := None;
      }
    }
    FillElements(bits, result);
  }

  /** The copying loop of `toArray(bits, a)`: slots from `size(bits)` on stay as they are. */
  method FillElements(bits: Word, result: array<Option<int>>)
    requires Size(bits) <= result.Length
    modifies result
    ensures result[..Size(bits)] == Boxed(Elements(bits))
    ensures result[Size(bits)..] == old(result[Size(bits)..])
  {
    var size := Size(bits);
    var current := 0;
    var i := MIN_VALUE;
    ghost var seen: seq<int> := [];
    while i <= MAX_VALUE
      invariant MIN_VALUE <= i <= MAX_VALUE + 1
      invariant seen == ElementsIn(bits, MIN_VALUE, i)
      invariant current == |seen| <= size
      invariant result[..current] == Boxed(seen)
      invariant result[size..] == old(result[size..])
    {
      CopyStep(bits, i);
      if IsSetNoCheck(bits, i) {
        BoxedAppend(seen, i);
        ghost var tail := result[size..];
        ghost var prefix := result[..current];
        result[current] := Some(i);
        assert result[size..] == tail;
        assert result[..current + 1] == prefix + [Some(i)];
        current := current + 1;
        seen := seen + [i];
      }
      i := i + 1;
    }
    CopyDone(bits, seen);
  }

  /** One position of a copying scan: a member found fits below `size(bits)`. */
  lemma CopyStep(bits: Word, i: int)
    requires MIN_VALUE <= i <= MAX_VALUE
    ensures IsSetNoCheck(bits, i) ==>
              && ElementsIn(bits, MIN_VALUE, i + 1) == ElementsIn(bits, MIN_VALUE, i) + [i]
              && |ElementsIn(bits, MIN_VALUE, i)| < Size(bits)
    ensures !IsSetNoCheck(bits, i) ==> ElementsIn(bits, MIN_VALUE, i + 1) == ElementsIn(bits, MIN_VALUE, i)
  {
    ScanStep(bits, MIN_VALUE, i);
    ElementsSplit(bits, MIN_VALUE, i + 1, MAX_VALUE + 1);
    ElementsMembers(bits);
  }

  /** A finished copying scan has copied all `size(bits)` elements. */
  lemma CopyDone(bits: Word, seen: seq<int>)
    requires seen == ElementsIn(bits, MIN_VALUE, MAX_VALUE + 1)
    ensures seen == Elements(bits) && |seen| == Size(bits)
  {
    ElementsMembers(bits);
  }

  lemma BoxedAppend(s: seq<int>, x: int)
    ensures Boxed(s + [x]) == Boxed(s) + [Some(x)]
  {
    assert (s + [x])[..|s|] == s;
  }

  /**
   * `toStringNotEmpty(bits)`: the rendering built in a `StringBuilder`. The
   * capacity hint from `estimateToStringSize` does not change the text.
   */
  method ToStringNotEmpty(bits: Word) returns (s: string)
    ensures s == Render(Elements(bits))
  {
    var builder := "[";
    var first := true;
    var i := MIN_VALUE;
    ghost var seen: seq<int> := [];
    while i <= MAX_VALUE
      invariant MIN_VALUE <= i <= MAX_VALUE + 1
      invariant seen == ElementsIn(bits, MIN_VALUE, i)
      invariant builder == "[" + Join(seen)
      invariant first <==> seen == []
    {
      ScanStep(bits, MIN_VALUE, i);
      if IsSetNoCheck(bits, i) {
        BracketAppend(seen, i);
        if !first {
          builder := builder + ", ";
        } else {
          first := false;
        }
        builder := builder + IntToString(i);
        seen := seen + [i];
      }
      i := i + 1;
    }
    s := builder + "]";
    RenderDone(bits, seen, builder);
  }

  /** Closing the bracket after a full scan gives the rendering. */
  lemma RenderDone(bits: Word, seen: seq<int>, builder: string)
    requires seen == ElementsIn(bits, MIN_VALUE, MAX_VALUE + 1) && builder == "[" + Join(seen)
    ensures builder + "]" == Render(Elements(bits))
  {
  }

  /** `estimateToStringSize(bits)`: exactly the length of the rendering. */
  method EstimateToStringSize(bits: Word) returns (toStringSize: int)
    ensures toStringSize == |Render(Elements(bits))|
  {
    toStringSize := 2;
    var first := true;
    var i := MIN_VALUE;
    while i <= MAX_VALUE
      invariant MIN_VALUE <= i <= MAX_VALUE + 1
      invariant Estimated(bits, i, toStringSize, first)
    {
      EstimateStep(bits, i, toStringSize, first);
      if IsSetNoCheck(bits, i) {
        if !first {
          toStringSize := toStringSize + 2;
        } else {
          first := false;
        }
        if i < 10 {
          toStringSize := toStringSize + 1;
        } else {
          toStringSize := toStringSize + 2;
        }
      }
      i := i + 1;
    }
    EstimateDone(bits, i, toStringSize, first);
  }

  lemma EstimateDone(bits: Word, i: int, toStringSize: int, first: bool)
    requires i == MAX_VALUE + 1 && Estimated(bits, i, toStringSize, first)
    ensures toStringSize == |Render(Elements(bits))|
  {
  }

  /** The estimate after scanning the positions below i. */
  ghost predicate Estimated(bits: Word, i: int, toStringSize: int, first: bool)
  {
    && toStringSize == 2 + |Join(ElementsIn(bits, MIN_VALUE, i))|
    && (first <==> ElementsIn(bits, MIN_VALUE, i) == [])
  }

  /** One position of the estimate's scan. */
  lemma EstimateStep(bits: Word, i: int, toStringSize: int, first: bool)
    requires MIN_VALUE <= i <= MAX_VALUE && Estimated(bits, i, toStringSize, first)
    ensures IsSetNoCheck(bits, i) ==>
              Estimated(bits, i + 1, toStringSize + (if first then 0 else 2) + (if i < 10 then 1 else 2), false)
    ensures !IsSetNoCheck(bits, i) ==> Estimated(bits, i + 1, toStringSize, first)
  {
    ScanStep(bits, MIN_VALUE, i);
    JoinLength(ElementsIn(bits, MIN_VALUE, i), i);
  }

  /**
   * `hashCode(bits)`: the sum of the elements, as for any `java.util.Set` of
   * the same integers; at most 0 + 1 + ... + 63 = 2016, so the `int`
   * accumulator never overflows.
   */
  method HashCode(bits: Word) returns (hashCode: int)
    ensures hashCode == SetSum(Members(bits))
    ensures 0 <= hashCode <= 2016
  {
    hashCode := 0;
    var i := MIN_VALUE;
    while i <= MAX_VALUE
      invariant MIN_VALUE <= i <= MAX_VALUE + 1
      invariant hashCode == SetSum(MembersBelow(bits, i))
    {
      IsSetNoCheckMember(bits, i);
      MembersBelowStep(bits, i);
      if IsSetNoCheck(bits, i) {
        SetSumAdd(MembersBelow(bits, i), i);
        hashCode := hashCode + i;
      }
      i := i + 1;
    }
    assert MembersBelow(bits, i) == Members(bits);
    SetSumBelow(Members(bits), WIDTH);
  }

  /** The members below i. */
  ghost function MembersBelow(bits: Word, i: int): set<int>
  {
    set j | MIN_VALUE <= j < i && Has(bits, j)
  }

  /** One more position scanned. */
  lemma MembersBelowStep(bits: Word, i: int)
    requires MIN_VALUE <= i
    ensures i !in MembersBelow(bits, i)
    ensures i in Members(bits) ==> MembersBelow(bits, i + 1) == MembersBelow(bits, i) + {i}
    ensures i !in Members(bits) ==> MembersBelow(bits, i + 1) == MembersBelow(bits, i)
  {
  }

  /**
   * `containsAllNonThrowing(bits, c)`: every element of c is an `Integer`
   * member; a null or non-`Integer` element gives false instead of throwing.
   */
  method ContainsAllNonThrowing(bits: Word, c: seq<Element>) returns (r: bool)
    ensures r <==> forall k | 0 <= k < |c| :: c[k].IntegerElement? && c[k].value in Members(bits)
  {
    var k := 0;
    while k < |c|
      invariant 0 <= k <= |c|
      invariant forall m | 0 <= m < k :: c[m].IntegerElement? && c[m].value in Members(bits)
    {
      var each := c[k];
      if !each.IntegerElement? {
        return false;
      }
      if !IsSet(bits, each.value) {
        return false;
      }
      k := k + 1;
    }
    return true;
  }
}

/**
 * SmallIntegerSet: a mutable sorted set of the integers 0..63 held in one
 * word `values`, its range views (head, tail and bounded), which read and
 * write the owner's word through a mask, and its iterator, a forward cursor
 * over the owner's live word.
 */
module SmallIntegerSets {
  import opened Outcomes
  import opened Words
  import opened SetBits
  import opened SetScans
  import opened Rendering
  import opened SetSums
  import opened Ranges

  /** The argument of a bulk operation: another SmallIntegerSet or any other collection of integers. */
  datatype Collection = SmallIntegerSetArg(other: SmallIntegerSet) | Generic(items: seq<int>)

  /** What a range query hands back: the owner itself, a view, or the shared empty set. */
  datatype SortedSetRef = OwnerRef(owner: SmallIntegerSet) | ViewRef(view: SubSetView) | EmptySetRef

  /** The argument of `equals`. A foreign set lists its elements once each, in its own order. */
  datatype Candidate =
    | OwnerObject(other: SmallIntegerSet)
    | ViewObject(view: SubSetView)
    | ForeignSet(elements: seq<Element>)
    | NotASet

  /** The end marker of the iterator's cursor. */
  const END: int := -1

  /** The answer r of a query is what the range answer says, over this owner. */
  ghost predicate Realises(owner: SmallIntegerSet, r: Result<SortedSetRef>, range: Result<Range>)
  {
    match range
    case Err(e) => r == Err(e)
    case Ok(WholeSet) => r == Ok(OwnerRef(owner))
    case Ok(EmptyRange) => r == Ok(EmptySetRef)
    case Ok(MaskedRange(kind, mask)) =>
      && r.Ok? && r.value.ViewRef?
      && r.value.view.owner == owner && r.value.view.kind == kind && r.value.view.mask == mask
      && r.value.view.Valid()
  }

  /**
   * The fallback of `equals` against a foreign set: the sizes agree and every
   * element of the other set is an `Integer` member.
   */
  ghost predicate Mirrors(elements: seq<Element>, s: set<int>)
  {
    |elements| == |s| && forall k | 0 <= k < |elements| :: elements[k].IntegerElement? && elements[k].value in s
  }

  /** No element occurs twice, as in any `java.util.Set`. */
  ghost predicate Distinct(elements: seq<Element>)
  {
    forall i, j | 0 <= i < j < |elements| :: elements[i] != elements[j]
  }

  /** The integers among the elements. */
  ghost function IntegerValues(elements: seq<Element>): set<int>
  {
    set e | e in elements && e.IntegerElement? :: e.value
  }

  /** The number of leading elements that `add` accepts before one throws. */
  function SupportedPrefix(items: seq<int>): (n: nat)
    ensures n <= |items|
    ensures forall j | 0 <= j < n :: IsSupported(items[j])
    ensures n < |items| ==> !IsSupported(items[n])
  {
    if items == [] || !IsSupported(items[0]) then 0
    else 1 + SupportedPrefix(items[1..])
  }

  /** A supported element right after the supported prefix would extend it. */
  lemma SupportedPrefixNext(items: seq<int>, k: int)
    requires 0 <= k <= SupportedPrefix(items) && k < |items| && IsSupported(items[k])
    ensures k < SupportedPrefix(items)
  {
  }

  /** The elements of a sequence, as a set. */
  ghost function ElementSet(items: seq<int>): set<int>
  {
    set x | x in items
  }

  /** One more element of the prefix. */
  lemma ElementSetPrefix(items: seq<int>, k: int)
    requires 0 <= k < |items|
    ensures ElementSet(items[..k + 1]) == ElementSet(items[..k]) + {items[k]}
  {
    assert items[..k + 1] == items[..k] + [items[k]];
  }

  /** The members of s below i that the filter accepts: what a scan up to i has removed. */
  ghost function Rejected(s: set<int>, filter: int -> bool, i: int): set<int>
  {
    set j | j in s && j < i && filter(j)
  }

  lemma RejectedStep(s: set<int>, filter: int -> bool, i: int)
    ensures Rejected(s, filter, i + 1) == Rejected(s, filter, i) + (if i in s && filter(i) then {i} else {})
  {
  }

  /** A scan over every position has removed every accepted member. */
  lemma RejectedAll(s: set<int>, filter: int -> bool)
    requires s <= POSITIONS
    ensures Rejected(s, filter, MAX_VALUE + 1) == set j | j in s && filter(j)
    ensures Rejected(s, filter, MAX_VALUE + 1) != {} <==> exists j :: j in s && filter(j)
  {
    if j :| j in s && filter(j) {
      assert j in Rejected(s, filter, MAX_VALUE + 1);
    }
  }

  class SmallIntegerSet {
    var values: Word

    /** The members of the set. */
    ghost function Contents(): set<int>
      reads this
    {
      Members(values)
    }

    /** A new, empty set. */
    constructor ()
      ensures values == 0 && Contents() == {}
    {
      values := 0;
      new;
      MembersEmpty(values);
    }

    /**
     * `add(e)`, which is `set(e)`: fails on an unsupported element and
     * leaves the word alone; otherwise sets bit e and tells whether e was new.
     */
    method Add(e: int) returns (r: Result<bool>)
      modifies this
      ensures !IsSupported(e) ==> r == Err(IllegalArgument) && values == old(values)
      ensures IsSupported(e) ==> values == Or(old(values), ShiftLeft(1, e))
      ensures IsSupported(e) ==> Contents() == old(Contents()) + {e}
      ensures IsSupported(e) ==> r == Ok(e !in old(Contents()))
    {
      if !IsSupported(e) {
        return Err(IllegalArgument);
      }
      var before := values;
      values := Or(values, ShiftLeft(1, e));
      MembersOr(before, ShiftLeft(1, e));
      MembersBit(e);
      MembersInjective(before, values);
      r := Ok(before != values);
    }

    /**
     * `remove(o)`, which is `unset(o)`: an unsupported element changes
     * nothing; otherwise bit o is cleared, and the answer tells whether it was set.
     */
    method Remove(o: int) returns (changed: bool)
      modifies this
      ensures !IsSupported(o) ==> values == old(values)
      ensures IsSupported(o) ==> values == And(old(values), Not(ShiftLeft(1, o)))
      ensures Contents() == old(Contents()) - {o}
      ensures changed <==> o in old(Contents())
    {
      if o < MIN_VALUE {
        MembersBounded(values);
        return false;
      }
      if o > MAX_VALUE {
        MembersBounded(values);
        return false;
      }
      var before := values;
      var after := And(values, Not(ShiftLeft(1, o)));
      values := after;
      MembersAndNot(before, ShiftLeft(1, o));
      MembersBit(o);
      MembersInjective(before, after);
      changed := before != after;
    }

    /** `contains(o)`. */
    function Contains(o: int): (r: bool)
      reads this
      ensures r <==> o in Contents()
    {
      IsSet(values, o)
    }

    /** `size()`. */
    function Size(): (r: nat)
      reads this
      ensures r == |Contents()|
    {
      SetBits.Size(values)
    }

    /** `isEmpty()`. */
    function IsEmpty(): (r: bool)
      reads this
      ensures r <==> Contents() == {}
    {
      SetBits.IsEmpty(values)
    }

    /** `first()`. */
    function First(): (r: Result<int>)
      reads this
      ensures r.Err? <==> Contents() == {}
      ensures r.Err? ==> r.error == NoSuchElement
      ensures r.Ok? ==> IsLeast(r.value, Contents())
    {
      SetBits.First(values)
    }

    /** `last()`. */
    function Last(): (r: Result<int>)
      reads this
      ensures r.Err? <==> Contents() == {}
      ensures r.Err? ==> r.error == NoSuchElement
      ensures r.Ok? ==> IsGreatest(r.value, Contents())
    {
      SetBits.Last(values)
    }

    /**
     * `removeIf(filter)`: every member the filter accepts is removed, and the
     * answer tells whether any was.
     */
    method RemoveIf(filter: int -> bool) returns (modified: bool)
      modifies this
      ensures Contents() == old(Contents()) - (set j | j in old(Contents()) && filter(j))
      ensures modified <==> exists j :: j in old(Contents()) && filter(j)
    {
      ghost var before := Contents();
      MembersBounded(values);
      modified := false;
      var i := MIN_VALUE;
      while i <= MAX_VALUE
        invariant MIN_VALUE <= i <= MAX_VALUE + 1
        invariant Contents() == before - Rejected(before, filter, i)
        invariant modified <==> Rejected(before, filter, i) != {}
      {
        IsSetNoCheckMember(values, i);
        RejectedStep(before, filter, i);
        if IsSetNoCheck(values, i) && filter(i) {
          var _ := Remove(i);
          modified := true;
        }
        i := i + 1;
      }
      RejectedAll(before, filter);
    }

    // -------------------------------------------------------------------
    // Bulk operations
    // -------------------------------------------------------------------

    /** `containsAll(c)`: the fast path for a SmallIntegerSet, the element-wise one otherwise. */
    method ContainsAll(c: Collection) returns (r: bool)
      ensures c.SmallIntegerSetArg? ==> (r <==> c.other.Contents() <= Contents())
      ensures c.Generic? ==> (r <==> forall x :: x in c.items ==> x in Contents())
    {
      match c
      case SmallIntegerSetArg(other) => r := ContainsAllSet(other);
      case Generic(items) => r := ContainsAllGeneric(items);
    }

    /** `containsAll(SmallIntegerSet)`: `(values & o) == o`. */
    method ContainsAllSet(other: SmallIntegerSet) returns (r: bool)
      ensures r <==> other.Contents() <= Contents()
    {
      var otherValues := other.values;
      r := And(values, otherValues) == otherValues;
      MembersAnd(values, otherValues);
      MembersInjective(And(values, otherValues), otherValues);
    }

    /** `containsAllGeneric(c)`: stops at the first element that is not a member. */
    method ContainsAllGeneric(items: seq<int>) returns (r: bool)
      ensures r <==> forall x :: x in items ==> x in Contents()
    {
      var k := 0;
      while k < |items|
        invariant 0 <= k <= |items|
        invariant forall j | 0 <= j < k :: items[j] in Contents()
      {
        if !Contains(items[k]) {
          return false;
        }
        k := k + 1;
      }
      return true;
    }

    /** `addAll(c)`: the fast path for a SmallIntegerSet, the element-wise one otherwise. */
    method AddAll(c: Collection) returns (r: Result<bool>)
      modifies this
      ensures c.SmallIntegerSetArg? ==>
                r.Ok? && Contents() == old(Contents()) + old(c.other.Contents())
                && (r.value <==> Contents() != old(Contents()))
      ensures c.Generic? ==>
                && Contents() == old(Contents()) + (set x | x in c.items[..SupportedPrefix(c.items)])
                && (r.Err? <==> SupportedPrefix(c.items) < |c.items|)
                && (r.Err? ==> r.error == IllegalArgument)
                && (r.Ok? ==> (r.value <==> Contents() != old(Contents())))
    {
      match c
      case SmallIntegerSetArg(other) =>
        var changed := AddAllSet(other);
        MembersInjective(old(values), values);
        r := Ok(changed);
      case Generic(items) =>
        r := AddAllGeneric(items);
    }

    /** `addAll(SmallIntegerSet)`: `values |= o`. */
    method AddAllSet(other: SmallIntegerSet) returns (changed: bool)
      modifies this
      ensures values == Or(old(values), old(other.values))
      ensures Contents() == old(Contents()) + old(other.Contents())
      ensures changed <==> values != old(values)
    {
      var before := values;
      values := Or(values, other.values);
      MembersOr(before, old(other.values));
      changed := before != values;
    }

    /**
     * `addAllGeneric(c)`: adds the elements in order; the first unsupported
     * one throws, and the elements added before it stay added.
     */
    method AddAllGeneric(items: seq<int>) returns (r: Result<bool>)
      modifies this
      ensures Contents() == old(Contents()) + (set x | x in items[..SupportedPrefix(items)])
      ensures r.Err? <==> SupportedPrefix(items) < |items|
      ensures r.Err? ==> r.error == IllegalArgument
      ensures r.Ok? ==> (r.value <==> Contents() != old(Contents()))
    {
      ghost var before := Contents();
      ghost var supported := SupportedPrefix(items);
      var changed := false;
      var k := 0;
      while k < |items|
        invariant 0 <= k <= supported
        invariant Contents() == before + ElementSet(items[..k])
        invariant changed <==> Contents() != before
      {
        var added := Add(items[k]);
        if added.Err? {
          return Err(IllegalArgument);
        }
        SupportedPrefixNext(items, k);
        ElementSetPrefix(items, k);
        changed := changed || added.value;
        k := k + 1;
      }
      assert items[..k] == items;
      return Ok(changed);
    }

    /** `retainAll(c)`: the fast path for a SmallIntegerSet, the element-wise one otherwise. */
    method RetainAll(c: Collection) returns (modified: bool)
      modifies this
      ensures c.SmallIntegerSetArg? ==> Contents() == old(Contents()) * old(c.other.Contents())
      ensures c.Generic? ==> Contents() == old(Contents()) * (set x | x in c.items)
      ensures modified <==> Contents() != old(Contents())
    {
      match c
      case SmallIntegerSetArg(other) =>
        modified := RetainAllSet(other);
        MembersInjective(old(values), values);
      case Generic(items) =>
        modified := RetainAllGeneric(items);
    }

    /** `retainAll(SmallIntegerSet)`: `values &= o`. */
    method RetainAllSet(other: SmallIntegerSet) returns (changed: bool)
      modifies this
      ensures values == And(old(values), old(other.values))
      ensures Contents() == old(Contents()) * old(other.Contents())
      ensures changed <==> values != old(values)
    {
      var before := values;
      values := And(values, other.values);
      MembersAnd(before, old(other.values));
      changed := before != values;
    }

    /** `retainAllGeneric(c)`: scans 0..63 and removes each member c does not contain. */
    method RetainAllGeneric(items: seq<int>) returns (modified: bool)
      modifies this
      ensures Contents() == old(Contents()) * (set x | x in items)
      ensures modified <==> Contents() != old(Contents())
    {
      ghost var before := Contents();
      ghost var absent := x => x !in items;
      MembersBounded(values);
      modified := false;
      var i := MIN_VALUE;
      while i <= MAX_VALUE
        invariant MIN_VALUE <= i <= MAX_VALUE + 1
        invariant Contents() == before - Rejected(before, absent, i)
        invariant modified <==> Rejected(before, absent, i) != {}
      {
        IsSetNoCheckMember(values, i);
        RejectedStep(before, absent, i);
        if IsSetNoCheck(values, i) && !(i in items) {
          var _ := Remove(i);
          modified := true;
        }
        i := i + 1;
      }
      RejectedAll(before, absent);
      assert Contents() == before * (set x | x in items);
      if modified {
        ghost var j :| j in before && absent(j);
        assert j !in Contents();
      }
    }

    /** `removeAll(c)`: the fast path for a SmallIntegerSet, the element-wise one otherwise. */
    method RemoveAll(c: Collection) returns (changed: bool)
      modifies this
      ensures c.SmallIntegerSetArg? ==> Contents() == old(Contents()) - old(c.other.Contents())
      ensures c.Generic? ==> Contents() == old(Contents()) - (set x | x in c.items)
      ensures changed <==> Contents() != old(Contents())
    {
      match c
      case SmallIntegerSetArg(other) =>
        changed := RemoveAllSet(other);
        MembersInjective(old(values), values);
      case Generic(items) =>
        changed := RemoveAllGeneric(items);
    }

    /** `removeAll(SmallIntegerSet)`: `values &= ~o`. */
    method RemoveAllSet(other: SmallIntegerSet) returns (changed: bool)
      modifies this
      ensures values == And(old(values), Not(old(other.values)))
      ensures Contents() == old(Contents()) - old(other.Contents())
      ensures changed <==> values != old(values)
    {
      var before := values;
      values := And(values, Not(other.values));
      MembersAndNot(before, old(other.values));
      changed := before != values;
    }

    /** `removeAllGeneric(c)`: removes the elements in order; unsupported ones are ignored. */
    method RemoveAllGeneric(items: seq<int>) returns (changed: bool)
      modifies this
      ensures Contents() == old(Contents()) - (set x | x in items)
      ensures changed <==> Contents() != old(Contents())
    {
      ghost var before := Contents();
      changed := false;
      var k := 0;
      while k < |items|
        invariant 0 <= k <= |items|
        invariant Contents() == before - ElementSet(items[..k])
        invariant changed <==> Contents() != before
      {
        var removed := Remove(items[k]);
        ElementSetPrefix(items, k);
        changed := changed || removed;
        k := k + 1;
      }
      assert items[..k] == items;
    }

    /** `clear()`. */
    method Clear()
      modifies this
      ensures values == 0 && Contents() == {}
    {
      values := 0;
      MembersEmpty(values);
    }

    /** `clear(bitsToClear)`: only the given bits are cleared. */
    method ClearMask(bitsToClear: Word)
      modifies this
      ensures values == And(old(values), Not(bitsToClear))
      ensures Contents() == old(Contents()) - Members(bitsToClear)
    {
      MembersAndNot(values, bitsToClear);
      values := And(values, Not(bitsToClear));
    }

    // -------------------------------------------------------------------
    // Rendering, hashing, comparison, arrays, traversal
    // -------------------------------------------------------------------

    /** `toString()`: "[]" when empty, the rendering of the ascending members otherwise. */
    method ToString() returns (s: string)
      ensures s == Render(Elements(values))
    {
      if SetBits.IsEmpty(values) {
        ElementsMembers(values);
        return "[]";
      }
      s := ToStringNotEmpty(values);
    }

    /** `hashCode()`: the sum of the members. */
    method HashCode() returns (hashCode: int)
      ensures hashCode == SetSum(Contents())
      ensures 0 <= hashCode <= 2016
    {
      hashCode := SetScans.HashCode(values);
    }

    /**
     * `equals(obj)`: identity, then word comparison against a SmallIntegerSet
     * or a view, false for a non-set, and the size and membership test otherwise.
     */
    method Equals(obj: Candidate) returns (r: bool)
      ensures obj.OwnerObject? ==> (r <==> Contents() == obj.other.Contents())
      ensures obj.ViewObject? ==> (r <==> Contents() == obj.view.Contents())
      ensures obj.ForeignSet? ==> (r <==> Mirrors(obj.elements, Contents()))
      ensures obj.NotASet? ==> !r
    {
      if obj.OwnerObject? && obj.other == this {
        return true;
      }
      match obj
      case NotASet =>
        r := false;
      case OwnerObject(other) =>
        r := values == other.values;
        MembersInjective(values, other.values);
      case ViewObject(view) =>
        var bits := view.Bits();
        r := values == bits;
        MembersInjective(values, bits);
      case ForeignSet(elements) =>
        if SetBits.Size(values) != |elements| {
          r := false;
        } else {
          r := ContainsAllNonThrowing(values, elements);
        }
    }

    /** `toArray()`. */
    method ToArray() returns (result: array<int>)
      ensures fresh(result)
      ensures result[..] == Elements(values)
    {
      result := SetScans.ToArray(values);
    }

    /** `toArray(a)`. */
    method ToArrayInto(a: array<Option<int>>) returns (result: array<Option<int>>)
      modifies a
      ensures a.Length < |Contents()| ==> fresh(result) && result.Length == |Contents()| && unchanged(a)
      ensures |Contents()| <= a.Length ==> result == a
      ensures |Contents()| <= result.Length && result[..|Contents()|] == Boxed(Elements(values))
      ensures |Contents()| < a.Length ==>
                result[|Contents()|] == None && result[|Contents()| + 1..] == old(a[|Contents()| + 1..])
    {
      result := SetScans.ToArrayInto(values, a);
    }

    /** `forEach(action)`: the members in the order the action receives them. */
    method ForEach() returns (accepted: seq<int>)
      ensures accepted == Elements(values)
    {
      accepted := SetScans.ForEach(values);
    }

    /** `iterator()`: a fresh cursor at the least member. */
    method Iterator() returns (it: SmallIntegerSetIterator)
      ensures fresh(it) && it.owner == this && it.Valid()
      ensures it.Remaining() == Elements(values)
    {
      it := new SmallIntegerSetIterator(this);
    }

    // -------------------------------------------------------------------
    // Range queries
    // -------------------------------------------------------------------

    /** Turns the answer of a range query into the owner, the empty set or a new view. */
    method Materialise(range: Result<Range>, ghost lo: int, ghost hi: int) returns (r: Result<SortedSetRef>)
      requires range.Ok? ==> Denotes(range.value, lo, hi)
      ensures Realises(this, r, range)
      ensures r.Ok? && r.value.ViewRef? ==> fresh(r.value.view)
    {
      match range
      case Err(e) =>
        r := Err(e);
      case Ok(WholeSet) =>
        r := Ok(OwnerRef(this));
      case Ok(EmptyRange) =>
        r := Ok(EmptySetRef);
      case Ok(MaskedRange(kind, mask)) =>
        ShapeBounds(kind, mask, lo, hi);
        var view := new SubSetView(this, kind, mask);
        r := Ok(ViewRef(view));
    }

    /** `subSet(fromElement, toElement)`. */
    method SubSet(fromElement: int, toElement: int) returns (r: Result<SortedSetRef>)
      ensures Realises(this, r, SubSetRange(fromElement, toElement))
      ensures r.Ok? && r.value.ViewRef? ==> fresh(r.value.view)
    {
      SubSetRangeSpec(fromElement, toElement);
      r := Materialise(SubSetRange(fromElement, toElement), fromElement, toElement);
    }

    /** `headSet(toElement)`. */
    method HeadSet(toElement: int) returns (r: Result<SortedSetRef>)
      ensures Realises(this, r, HeadSetRange(toElement))
      ensures r.Ok? && r.value.ViewRef? ==> fresh(r.value.view)
    {
      HeadSetRangeSpec(toElement);
      r := Materialise(HeadSetRange(toElement), MIN_VALUE, toElement);
    }

    /** `tailSet(fromElement)`. */
    method TailSet(fromElement: int) returns (r: Result<SortedSetRef>)
      ensures Realises(this, r, TailSetRange(fromElement))
      ensures r.Ok? && r.value.ViewRef? ==> fresh(r.value.view)
    {
      TailSetRangeSpec(fromElement);
      r := Materialise(TailSetRange(fromElement), fromElement, MAX_VALUE + 1);
    }
  }

  /**
   * A range view: a mask over the owner's live word. Reads see
   * `values & mask`; writes go to the owner after a check against the mask.
   */
  class SubSetView {
    const owner: SmallIntegerSet
    const kind: ViewKind
    const mask: Word

    /** The mask is a contiguous range of the shape the kind requires. */
    ghost predicate Valid()
    {
      Contiguous(kind, mask)
    }

    constructor (owner: SmallIntegerSet, kind: ViewKind, mask: Word)
      requires Contiguous(kind, mask)
      ensures this.owner == owner && this.kind == kind && this.mask == mask && Valid()
    {
      this.owner := owner;
      this.kind := kind;
      this.mask := mask;
    }

    /** The members of the view: the owner's members inside the mask. */
    ghost function Contents(): set<int>
      reads owner
    {
      owner.Contents() * Members(mask)
    }

    /** `bits()`: the owner's current word restricted to the mask. */
    function Bits(): (r: Word)
      reads owner
      ensures Members(r) == Contents()
    {
      MembersAnd(owner.values, mask);
      And(owner.values, mask)
    }

    /** `add(e)`: fails unless e is inside the mask, then adds to the owner. */
    method Add(e: int) returns (r: Result<bool>)
      modifies owner
      ensures e !in Members(mask) ==> r == Err(IllegalArgument) && owner.values == old(owner.values)
      ensures e in Members(mask) ==> owner.Contents() == old(owner.Contents()) + {e}
      ensures e in Members(mask) ==> r == Ok(e !in old(owner.Contents()))
    {
      if !IsSupportedIn(mask, e) {
        return Err(IllegalArgument);
      }
      MembersBounded(mask);
      r := owner.Add(e);
    }

    /** `remove(o)`: false without touching the owner outside the mask. */
    method Remove(o: int) returns (changed: bool)
      modifies owner
      ensures o !in Members(mask) ==> !changed && owner.values == old(owner.values)
      ensures owner.Contents() == old(owner.Contents()) - ({o} * Members(mask))
      ensures changed <==> o in old(Contents())
    {
      if !IsSupportedIn(mask, o) {
        return false;
      }
      changed := owner.Remove(o);
    }

    /** `clear()`: clears the masked bits of the owner and no others. */
    method Clear()
      modifies owner
      ensures owner.Contents() == old(owner.Contents()) - Members(mask)
      ensures Contents() == {}
    {
      owner.ClearMask(mask);
    }

    /** `contains(o)`. */
    function Contains(o: int): (r: bool)
      reads owner
      ensures r <==> o in owner.Contents() && o in Members(mask)
    {
      IsSet(Bits(), o)
    }

    /** `size()`. */
    function Size(): (r: nat)
      reads owner
      ensures r == |Contents()|
    {
      SetBits.Size(Bits())
    }

    /** `isEmpty()`. */
    function IsEmpty(): (r: bool)
      reads owner
      ensures r <==> Contents() == {}
    {
      SetBits.IsEmpty(Bits())
    }

    /** `first()`. */
    function First(): (r: Result<int>)
      reads owner
      ensures r.Err? <==> Contents() == {}
      ensures r.Err? ==> r.error == NoSuchElement
      ensures r.Ok? ==> IsLeast(r.value, Contents())
    {
      SetBits.First(Bits())
    }

    /** `last()`. */
    function Last(): (r: Result<int>)
      reads owner
      ensures r.Err? <==> Contents() == {}
      ensures r.Err? ==> r.error == NoSuchElement
      ensures r.Ok? ==> IsGreatest(r.value, Contents())
    {
      SetBits.Last(Bits())
    }

    /** `toString()`. */
    method ToString() returns (s: string)
      ensures s == Render(Elements(Bits()))
    {
      var bits := Bits();
      if SetBits.IsEmpty(bits) {
        ElementsMembers(bits);
        return "[]";
      }
      s := ToStringNotEmpty(Bits());
    }

    /** `toArray()`. */
    method ToArray() returns (result: array<int>)
      ensures fresh(result)
      ensures result[..] == Elements(Bits())
    {
      result := SetScans.ToArray(Bits());
    }

    /** `toArray(a)`. */
    method ToArrayInto(a: array<Option<int>>) returns (result: array<Option<int>>)
      modifies a
      ensures a.Length < |Contents()| ==> fresh(result) && result.Length == |Contents()| && unchanged(a)
      ensures |Contents()| <= a.Length ==> result == a
      ensures |Contents()| <= result.Length && result[..|Contents()|] == Boxed(Elements(Bits()))
      ensures |Contents()| < a.Length ==>
                result[|Contents()|] == None && result[|Contents()| + 1..] == old(a[|Contents()| + 1..])
    {
      result := SetScans.ToArrayInto(Bits(), a);
    }

    /** `hashCode()`. */
    method HashCode() returns (hashCode: int)
      ensures hashCode == SetSum(Contents())
      ensures 0 <= hashCode <= 2016
    {
      hashCode := SetScans.HashCode(Bits());
    }

    /** `forEach(action)`. */
    method ForEach() returns (accepted: seq<int>)
      ensures accepted == Elements(Bits())
    {
      accepted := SetScans.ForEach(Bits());
    }

    /** `equals(obj)`, as for the owner but on `bits()`. */
    method Equals(obj: Candidate) returns (r: bool)
      ensures obj.OwnerObject? ==> (r <==> Contents() == obj.other.Contents())
      ensures obj.ViewObject? ==> (r <==> Contents() == obj.view.Contents())
      ensures obj.ForeignSet? ==> (r <==> Mirrors(obj.elements, Contents()))
      ensures obj.NotASet? ==> !r
    {
      if obj.ViewObject? && obj.view == this {
        return true;
      }
      var bits := Bits();
      match obj
      case NotASet =>
        r := false;
      case OwnerObject(other) =>
        r := bits == other.values;
        MembersInjective(bits, other.values);
      case ViewObject(view) =>
        var otherBits := view.Bits();
        r := bits == otherBits;
        MembersInjective(bits, otherBits);
      case ForeignSet(elements) =>
        if SetBits.Size(bits) != |elements| {
          r := false;
        } else {
          r := ContainsAllNonThrowing(bits, elements);
        }
    }

    /** `subSet(fromElement, toElement)`: both bounds inside the mask, then the owner's `subSet`. */
    method SubSet(fromElement: int, toElement: int) returns (r: Result<SortedSetRef>)
      requires Valid()
      ensures Realises(owner, r, ViewSubSetRange(mask, fromElement, toElement))
      ensures r.Ok? && r.value.ViewRef? ==> fresh(r.value.view)
    {
      ViewSubSetRangeSpec(kind, mask, Least(mask), Greatest(mask) + 1, fromElement, toElement);
      r := owner.Materialise(ViewSubSetRange(mask, fromElement, toElement), fromElement, toElement);
    }

    /** `headSet(toElement)`, with the override of SmallIntegerHeadSet. */
    method HeadSet(toElement: int) returns (r: Result<SortedSetRef>)
      requires Valid()
      ensures Realises(owner, r, ViewHeadSetRange(kind, mask, toElement))
      ensures r.Ok? && r.value.ViewRef? ==> fresh(r.value.view)
    {
      var lo := Least(mask);
      ViewHeadSetRangeSpec(kind, mask, lo, Greatest(mask) + 1, toElement);
      r := owner.Materialise(ViewHeadSetRange(kind, mask, toElement), lo, toElement);
    }

    /** `tailSet(fromElement)`, with the override of SmallIntegerTailSet. */
    method TailSet(fromElement: int) returns (r: Result<SortedSetRef>)
      requires Valid()
      ensures Realises(owner, r, ViewTailSetRange(kind, mask, fromElement))
      ensures r.Ok? && r.value.ViewRef? ==> fresh(r.value.view)
    {
      var hi := Greatest(mask) + 1;
      ViewTailSetRangeSpec(kind, mask, Least(mask), hi, fromElement);
      r := owner.Materialise(ViewTailSetRange(kind, mask, fromElement), fromElement, hi);
    }
  }

  /**
   * The iterator: a cursor `nextIndex` over the owner's live word, END once
   * exhausted. It yields the position under the cursor, then scans forward.
   */
  class SmallIntegerSetIterator {
    const owner: SmallIntegerSet
    var nextIndex: int

    ghost predicate Valid()
      reads this
    {
      nextIndex == END || MIN_VALUE <= nextIndex <= MAX_VALUE
    }

    /** What the cursor will yield if the owner does not change meanwhile. */
    ghost function Remaining(): seq<int>
      reads this, owner
    {
      if nextIndex == END then [] else [nextIndex] + ElementsIn(owner.values, nextIndex + 1, MAX_VALUE + 1)
    }

    /** A cursor at the least member. */
    constructor (owner: SmallIntegerSet)
      ensures this.owner == owner && Valid()
      ensures Remaining() == Elements(owner.values)
    {
      this.owner := owner;
      new;
      nextIndex := FindNextIndex(MIN_VALUE);
    }

    /** `findNextIndex(initial)`: the least member from initial on, or END. */
    method FindNextIndex(initial: int) returns (next: int)
      requires MIN_VALUE <= initial <= MAX_VALUE + 1
      ensures next == END || initial <= next <= MAX_VALUE
      ensures next == END ==> ElementsIn(owner.values, initial, MAX_VALUE + 1) == []
      ensures next != END ==>
                ElementsIn(owner.values, initial, MAX_VALUE + 1) == [next] + ElementsIn(owner.values, next + 1, MAX_VALUE + 1)
    {
      var i := initial;
      while i <= MAX_VALUE
        invariant initial <= i <= MAX_VALUE + 1
        invariant ElementsIn(owner.values, initial, i) == []
      {
        IsSetNoCheckMember(owner.values, i);
        ElementsStep(owner.values, initial, i);
        if IsSetNoCheck(owner.values, i) {
          ElementsSplit(owner.values, initial, i, MAX_VALUE + 1);
          ElementsFront(owner.values, i, MAX_VALUE + 1);
          return i;
        }
        i := i + 1;
      }
      return END;
    }

    /** `hasNext()`. */
    function HasNext(): (r: bool)
      reads this, owner
      ensures r <==> Remaining() != []
    {
      nextIndex != END
    }

    /** `next()`: fails once exhausted; otherwise yields the head of what remains and advances. */
    method Next() returns (r: Result<int>)
      requires Valid()
      modifies this
      ensures Valid()
      ensures old(Remaining()) == [] ==> r == Err(NoSuchElement) && nextIndex == old(nextIndex)
      ensures old(Remaining()) != [] ==> r == Ok(old(Remaining())[0]) && Remaining() == old(Remaining())[1..]
    {
      if !HasNext() {
        return Err(NoSuchElement);
      }
      var next := nextIndex;
      nextIndex := FindNextIndex(nextIndex + 1);
      r := Ok(next);
    }

    /**
     * `forEachRemaining(action)`: the members from the cursor on, in the
     * order the action receives them; the cursor ends at END.
     */
    method ForEachRemaining() returns (accepted: seq<int>)
      requires Valid()
      modifies this
      ensures Valid() && nextIndex == END && Remaining() == []
      ensures old(nextIndex) == END ==> accepted == []
      ensures old(nextIndex) != END ==> accepted == ElementsIn(owner.values, old(nextIndex), MAX_VALUE + 1)
      ensures old(nextIndex) == END || old(nextIndex) in owner.Contents() ==> accepted == old(Remaining())
    {
      accepted := [];
      if !HasNext() {
        return;
      }
      var start := nextIndex;
      var i := start;
      while i <= MAX_VALUE
        invariant start <= i <= MAX_VALUE + 1
        invariant accepted == ElementsIn(owner.values, start, i)
      {
        IsSetNoCheckMember(owner.values, i);
        ElementsStep(owner.values, start, i);
        if IsSetNoCheck(owner.values, i) {
          accepted := accepted + [i];
        }
        i := i + 1;
      }
      ElementsFront(owner.values, start, MAX_VALUE + 1);
      nextIndex := END;
    }
  }

  // ---------------------------------------------------------------------
  // Properties relating several operations
  // ---------------------------------------------------------------------

  /**
   * Handing the generic paths the members of another set o, as a foreign
   * collection would list them, leaves the same word as the word paths:
   * nothing is refused, and the union, intersection and difference agree;
   * the two `containsAll` paths give the same answer.
   */
  lemma BulkPathsAgree(w: Word, o: Word, added: Word, retained: Word, removed: Word)
    requires Members(added) == Members(w) + ElementSet(Elements(o)[..SupportedPrefix(Elements(o))])
    requires Members(retained) == Members(w) * ElementSet(Elements(o))
    requires Members(removed) == Members(w) - ElementSet(Elements(o))
    ensures SupportedPrefix(Elements(o)) == |Elements(o)|
    ensures added == Or(w, o)
    ensures retained == And(w, o)
    ensures removed == And(w, Not(o))
    ensures (forall x :: x in Elements(o) ==> x in Members(w)) <==> Members(o) <= Members(w)
  {
    ElementsSupported(o);
    ElementsMembers(o);
    assert Elements(o)[..|Elements(o)|] == Elements(o);
    MembersOr(w, o);
    MembersAnd(w, o);
    MembersAndNot(w, o);
    MembersInjective(added, Or(w, o));
    MembersInjective(retained, And(w, o));
    MembersInjective(removed, And(w, Not(o)));
  }

  /** `add` accepts every element another set lists. */
  lemma ElementsSupported(o: Word)
    ensures SupportedPrefix(Elements(o)) == |Elements(o)|
  {
    var items := Elements(o);
    ElementsInSpec(o, MIN_VALUE, MAX_VALUE + 1);
    forall k | 0 <= k < |items|
      ensures IsSupported(items[k])
    {
      assert items[k] in items;
    }
  }

  /** Distinct `Integer` elements have as many values as elements. */
  lemma {:induction false} IntegerValuesCard(elements: seq<Element>)
    requires Distinct(elements)
    requires forall k | 0 <= k < |elements| :: elements[k].IntegerElement?
    ensures |IntegerValues(elements)| == |elements|
  {
    if elements != [] {
      var t := elements[..|elements| - 1];
      var x := elements[|elements| - 1];
      assert elements == t + [x];
      IntegerValuesCard(t);
      IntegerValuesSnoc(t, x);
    }
  }

  lemma IntegerValuesSnoc(t: seq<Element>, x: Element)
    requires x.IntegerElement?
    ensures IntegerValues(t + [x]) == IntegerValues(t) + {x.value}
  {
    forall v | v in IntegerValues(t + [x])
      ensures v in IntegerValues(t) + {x.value}
    {
      var e :| e in t + [x] && e.IntegerElement? && e.value == v;
      if e != x {
        assert e in t;
      }
    }
  }

  /**
   * For a foreign set, the size and membership test of `equals` is set
   * equality: every element is an `Integer`, and their values are the members.
   */
  lemma MirrorsIsSetEquality(elements: seq<Element>, s: set<int>)
    requires Distinct(elements)
    ensures Mirrors(elements, s) <==>
              (forall k | 0 <= k < |elements| :: elements[k].IntegerElement?) && IntegerValues(elements) == s
  {
    if forall k | 0 <= k < |elements| :: elements[k].IntegerElement? {
      IntegerValuesCard(elements);
      if Mirrors(elements, s) {
        assert IntegerValues(elements) <= s;
        CardSubset(IntegerValues(elements), s);
        var rest := s - IntegerValues(elements);
        assert s == IntegerValues(elements) + rest;
        assert |rest| == 0;
      }
      if IntegerValues(elements) == s {
        forall k | 0 <= k < |elements|
          ensures elements[k].value in s
        {
          assert elements[k] in elements;
        }
      }
    }
  }

  /**
   * A fresh iterator, driven by `hasNext` and `next`, yields the ascending
   * members (`ElementsOrder`: each member once, strictly ascending).
   */
  method IterateAll(s: SmallIntegerSet) returns (yielded: seq<int>)
    ensures yielded == Elements(s.values)
  {
    var it := s.Iterator();
    ghost var all := it.Remaining();
    yielded := [];
    while it.HasNext()
      invariant it.Valid() && it.owner == s
      invariant yielded + it.Remaining() == all
      decreases |all| - |yielded|
    {
      ghost var remaining := it.Remaining();
      var next := it.Next();
      assert remaining == [next.value] + it.Remaining();
      assert yielded + [next.value] + it.Remaining() == yielded + remaining;
      yielded := yielded + [next.value];
    }
  }

  /**
   * Adding the same element twice: the second `add` reports no change, and
   * the size grows at most once. An unsupported element is refused both times.
   */
  method AddTwice(s: SmallIntegerSet, e: int) returns (first: Result<bool>, second: Result<bool>)
    modifies s
    ensures !IsSupported(e) ==> first == Err(IllegalArgument) && second == first && s.values == old(s.values)
    ensures IsSupported(e) ==> first == Ok(e !in old(s.Contents())) && second == Ok(false)
    ensures IsSupported(e) ==> s.Size() == old(s.Size()) + (if first == Ok(true) then 1 else 0)
  {
    ghost var before := s.Contents();
    first := s.Add(e);
    second := s.Add(e);
    if IsSupported(e) {
      assert s.Contents() == before + {e};
      if e in before {
        assert s.Contents() == before;
      } else {
        assert |s.Contents()| == |before| + 1;
      }
    }
  }

  /**
   * `subSet(1, 3).subSet(2, 3)` over an empty owner: the inner view refuses
   * 3 and 0, which the owner supports, and it adds 2.
   */
  method NestedViewAdds() returns (three: Result<bool>, zero: Result<bool>, two: Result<bool>)
    ensures three == Err(IllegalArgument) && zero == Err(IllegalArgument)
    ensures two == Ok(true)
  {
    var owner := new SmallIntegerSet();
    NestedSubSetBounds();
    var outer := owner.SubSet(1, 3);
    var inner := outer.value.view.SubSet(2, 3);
    var view := inner.value.view;
    three := view.Add(3);
    zero := view.Add(0);
    two := view.Add(2);
  }
}

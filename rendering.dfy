/**
 * The text `toString` produces: the elements in decimal, separated by ", ",
 * between square brackets (the format of `AbstractCollection.toString`).
 */
module Rendering {

  function DigitChar(d: int): char
    requires 0 <= d < 10
  {
    "0123456789"[d]
  }

  function DigitValue(c: char): nat
  {
    if '0' <= c <= '9' then c as int - '0' as int else 0
  }

  /** `Integer.toString(n)` for a non-negative n. */
  function Decimal(n: nat): (s: string)
    ensures 1 <= |s|
    decreases n
  {
    if n < 10 then [DigitChar(n)] else Decimal(n / 10) + [DigitChar(n % 10)]
  }

  /** `Integer.toString(n)`, what `StringBuilder.append(int)` appends. */
  function IntToString(n: int): string
  {
    if n < 0 then "-" + Decimal(-n) else Decimal(n)
  }

  /** Reads a string of decimal digits back as a number. */
  function ParseDecimal(s: string): nat
  {
    if s == [] then 0
    else ParseDecimal(s[..|s| - 1]) * 10 + DigitValue(s[|s| - 1])
  }

  /** The elements, separated by ", ". */
  function Join(s: seq<int>): string
  {
    if |s| == 0 then ""
    else if |s| == 1 then IntToString(s[0])
    else Join(s[..|s| - 1]) + ", " + IntToString(s[|s| - 1])
  }

  /** The whole rendering, brackets included. */
  function Render(s: seq<int>): string
  {
    "[" + Join(s) + "]"
  }

  /** Decimal rendering loses nothing: reading it back gives the number. */
  lemma {:induction false} DecimalRoundTrip(n: nat)
    ensures ParseDecimal(Decimal(n)) == n
    decreases n
  {
    if n >= 10 {
      DecimalRoundTrip(n / 10);
      var s := Decimal(n / 10) + [DigitChar(n % 10)];
      assert s[..|s| - 1] == Decimal(n / 10);
    }
  }

  /** Elements below 100 take one or two characters. */
  lemma DecimalLength(n: nat)
    requires n < 100
    ensures |IntToString(n)| == if n < 10 then 1 else 2
  {
    if n >= 10 {
      assert |Decimal(n / 10)| == 1;
    }
  }

  /** Appending one element to the joined text, as the rendering loop does. */
  lemma JoinAppend(s: seq<int>, x: int)
    ensures Join(s + [x]) == if s == [] then IntToString(x) else Join(s) + ", " + IntToString(x)
  {
    assert (s + [x])[..|s|] == s;
  }

  /** The length the rendering loop's size estimate adds for one more element below 100. */
  lemma JoinLength(s: seq<int>, x: int)
    requires 0 <= x < 100
    ensures |Join(s + [x])| == |Join(s)| + (if s == [] then 0 else 2) + (if x < 10 then 1 else 2)
  {
    JoinAppend(s, x);
    DecimalLength(x);
  }

  /** The same step behind the opening bracket. */
  lemma BracketAppend(s: seq<int>, x: int)
    ensures "[" + Join(s + [x]) == if s == [] then "[" + IntToString(x) else "[" + Join(s) + ", " + IntToString(x)
  {
    JoinAppend(s, x);
    if s != [] {
      assert "[" + (Join(s) + ", " + IntToString(x)) == "[" + Join(s) + ", " + IntToString(x);
    }
  }
}

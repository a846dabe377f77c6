/** Text helpers the serialiser relies on: joining a list of strings
    (Python's ''.join), iterating a text file line by line, and writing a
    natural number in decimal (an f-string's {n}). Each comes with the
    property that pins it down: the inverse, or the shape of its result. */
module Text {

  /** The total number of characters in the parts. */
  function TotalLength(parts: seq<string>): nat
  {
    if parts == [] then 0 else TotalLength(parts[..|parts| - 1]) + |parts[|parts| - 1]|
  }

  /** ''.join(parts): the parts one after another, nothing between them. */
  function Concat(parts: seq<string>): (r: string)
    ensures |r| == TotalLength(parts)
  {
    if parts == [] then "" else Concat(parts[..|parts| - 1]) + parts[|parts| - 1]
  }

  lemma {:induction false} ConcatAppend(a: seq<string>, b: seq<string>)
    ensures Concat(a + b) == Concat(a) + Concat(b)
    decreases |b|
  {
    if b == [] {
      assert a + b == a;
    } else {
      var front, last := b[..|b| - 1], b[|b| - 1];
      var ab := a + b;
      assert ab[..|ab| - 1] == a + front;
      assert ab[|ab| - 1] == last;
      ConcatAppend(a, front);
      Assoc(Concat(a), Concat(front), last);
    }
  }

  lemma Assoc<T>(a: seq<T>, b: seq<T>, c: seq<T>)
    ensures a + b + c == a + (b + c)
  {
  }

  lemma MultisetSwap<T>(a: seq<T>, b: seq<T>, c: seq<T>)
    ensures multiset(a + b + c) == multiset(a + c) + multiset(b)
  {
  }

  lemma ConcatCons(x: string, rest: seq<string>)
    ensures Concat([x] + rest) == x + Concat(rest)
  {
    ConcatAppend([x], rest);
    assert [x][..0] == [];
  }

  // ---------------------------------------------------------------------
  // Iterating a text file: each line keeps its terminating '\n'; the last
  // line has none when the text does not end in a newline.

  /** Length of the first line of s: just past its first '\n', or all of s. */
  function LineEnd(s: string): (k: nat)
    ensures k <= |s|
    ensures s != [] ==> 0 < k
    ensures forall i :: 0 <= i < k - 1 ==> s[i] != '\n'
    ensures 0 < k < |s| ==> s[k - 1] == '\n'
  {
    if s == [] then 0
    else if s[0] == '\n' then 1
    else
      var k := 1 + LineEnd(s[1..]);
      assert forall i :: 1 <= i < k - 1 ==> s[i] == s[1..][i - 1];
      k
  }

  /** The lines a text-mode file iterator yields for the decoded text s. */
  function SplitLines(s: string): (lines: seq<string>)
    ensures lines == [] <==> s == []
    ensures |lines| <= |s|
    decreases |s|
  {
    if s == [] then [] else [s[..LineEnd(s)]] + SplitLines(s[LineEnd(s)..])
  }

  /** Joining the lines gives the text back: nothing is added, removed or changed. */
  lemma {:induction false} SplitLinesJoin(s: string)
    ensures Concat(SplitLines(s)) == s
    decreases |s|
  {
    if s != [] {
      var k := LineEnd(s);
      SplitLinesJoin(s[k..]);
      ConcatCons(s[..k], SplitLines(s[k..]));
      assert s[..k] + s[k..] == s;
    }
  }

  /** SplitLines really cuts at the newlines: the j-th line is not empty,
      holds no '\n' before its last character, and ends in '\n' unless it
      is the last line. */
  lemma {:induction false} SplitLineAt(s: string, j: nat)
    requires j < |SplitLines(s)|
    ensures var line := SplitLines(s)[j];
      line != "" &&
      (forall i :: 0 <= i < |line| - 1 ==> line[i] != '\n') &&
      (j < |SplitLines(s)| - 1 ==> line[|line| - 1] == '\n')
    decreases |s|
  {
    var k := LineEnd(s);
    var rest := SplitLines(s[k..]);
    assert SplitLines(s) == [s[..k]] + rest;
    if j == 0 {
      if |SplitLines(s)| > 1 {
        assert s[k..] != [];
      }
    } else {
      SplitLineAt(s[k..], j - 1);
      assert SplitLines(s)[j] == rest[j - 1];
    }
  }

  /** Text ending in '\n' leaves its last line terminated; otherwise the last
      line carries no '\n' at all. */
  lemma SplitLinesLast(s: string)
    requires s != []
    ensures |SplitLines(s)| > 0
    ensures var last := SplitLines(s)[|SplitLines(s)| - 1];
      last != "" && (last[|last| - 1] == '\n' <==> s[|s| - 1] == '\n')
  {
    var ls := SplitLines(s);
    SplitLinesJoin(s);
    assert ls != [];
    var front, last := ls[..|ls| - 1], ls[|ls| - 1];
    SplitLineAt(s, |ls| - 1);
    assert s == Concat(front) + last;
  }

  // ---------------------------------------------------------------------
  // Decimal rendering of a natural number.

  predicate IsDigit(c: char)
  {
    '0' <= c <= '9'
  }

  predicate AllDigits(s: string)
  {
    forall i :: 0 <= i < |s| ==> IsDigit(s[i])
  }

  function DigitChar(d: nat): (c: char)
    requires d < 10
    ensures IsDigit(c)
  {
    ('0' as int + d) as char
  }

  function DigitValue(c: char): (d: nat)
    requires IsDigit(c)
    ensures d < 10
  {
    c as int - '0' as int
  }

  /** The decimal digits of n, most significant first, without leading zeros. */
  function Decimal(n: nat): (s: string)
    ensures s != [] && AllDigits(s)
    ensures |s| > 1 ==> s[0] != '0'
    ensures n < 10 <==> |s| == 1
  {
    if n < 10 then [DigitChar(n)] else Decimal(n / 10) + [DigitChar(n % 10)]
  }

  /** Reads a string of decimal digits back as a number. */
  function ParseDecimal(s: string): (n: nat)
    requires AllDigits(s)
  {
    if s == [] then 0 else ParseDecimal(s[..|s| - 1]) * 10 + DigitValue(s[|s| - 1])
  }

  /** Decimal is a faithful rendering: parsing it gives the number back. */
  lemma {:induction false} ParseDecimalInverse(n: nat)
    ensures ParseDecimal(Decimal(n)) == n
  {
    var s := Decimal(n);
    if n < 10 {
      assert s[..0] == [];
    } else {
      ParseDecimalInverse(n / 10);
      assert s[..|s| - 1] == Decimal(n / 10);
      assert DigitValue(s[|s| - 1]) == n % 10;
    }
  }
}

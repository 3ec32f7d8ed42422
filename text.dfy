/**
 * String helpers the calendar relies on: ASCII digits and their decimal
 * value, code-point lexicographic order (the order `localeCompare` gives on
 * fixed-width ASCII dates), substring search, ASCII lower-casing, and
 * joining/splitting on line breaks.
 */
module Text {

  // ---------------------------------------------------------------- digits

  predicate IsDigit(c: char) { '0' <= c <= '9' }

  predicate AllDigits(s: string) { forall i | 0 <= i < |s| :: IsDigit(s[i]) }

  function DigitValue(c: char): (v: nat)
    requires IsDigit(c)
    ensures v <= 9
  {
    c as int - '0' as int
  }

  function DigitChar(v: nat): (c: char)
    requires v <= 9
    ensures IsDigit(c) && DigitValue(c) == v
  {
    ('0' as int + v) as char
  }

  /** The number a string of ASCII digits denotes; the empty string denotes 0, as `Number("")` does. */
  function DecimalValue(s: string): nat
    requires AllDigits(s)
  {
    if s == [] then 0 else 10 * DecimalValue(s[..|s| - 1]) + DigitValue(s[|s| - 1])
  }

  lemma TwoDigitValue(s: string)
    requires |s| == 2 && AllDigits(s)
    ensures DecimalValue(s) == 10 * DigitValue(s[0]) + DigitValue(s[1])
  {
    var head := s[..1];
    assert AllDigits(head) && head[0] == s[0] && head[..0] == [];
    assert DecimalValue(head) == DigitValue(s[0]);
    assert s[..|s| - 1] == head;
  }

  /** Decimal rendering of a natural number, as a template literal writes it. */
  function DecimalString(n: nat): (s: string)
    ensures |s| > 0 && AllDigits(s)
    ensures n < 10 <==> |s| == 1
  {
    if n < 10 then [DigitChar(n)] else DecimalString(n / 10) + [DigitChar(n % 10)]
  }

  /** Decimal text of an integer, as a template literal writes it. */
  function IntString(n: int): (s: string)
    ensures n >= 0 ==> s == DecimalString(n)
    ensures n < 0 ==> |s| >= 2 && s[0] == '-' && s[1..] == DecimalString(-n)
  {
    if n < 0 then "-" + DecimalString(-n) else DecimalString(n)
  }

  /** Reading back what `DecimalString` writes gives the number again. */
  lemma {:induction false} DecimalRoundTrip(n: nat)
    ensures DecimalValue(DecimalString(n)) == n
  {
    if n >= 10 {
      var s := DecimalString(n);
      assert s[..|s| - 1] == DecimalString(n / 10);
      DecimalRoundTrip(n / 10);
    }
  }

  /** Two digit strings of one length with the same value are the same string. */
  lemma {:induction false} DecimalValueInjective(a: string, b: string)
    requires AllDigits(a) && AllDigits(b) && |a| == |b|
    requires DecimalValue(a) == DecimalValue(b)
    ensures a == b
  {
    if a != [] {
      var n := |a|;
      DecimalValueInjective(a[..n - 1], b[..n - 1]);
      assert a == a[..n - 1] + [a[n - 1]] && b == b[..n - 1] + [b[n - 1]];
    }
  }

  // --------------------------------------------------- lexicographic order

  /** `a` sorts at or before `b`, comparing code points from the left (the same as UTF-16 code units on ASCII text); a proper prefix sorts first. */
  predicate LexLe(a: string, b: string)
  {
    |a| == 0 || (|b| > 0 && (a[0] < b[0] || (a[0] == b[0] && LexLe(a[1..], b[1..]))))
  }

  lemma {:induction false} LexLeReflexive(a: string)
    ensures LexLe(a, a)
  {
    if |a| > 0 { LexLeReflexive(a[1..]); }
  }

  lemma {:induction false} LexLeTotal(a: string, b: string)
    ensures LexLe(a, b) || LexLe(b, a)
  {
    if |a| > 0 && |b| > 0 && a[0] == b[0] { LexLeTotal(a[1..], b[1..]); }
  }

  lemma {:induction false} LexLeAntisymmetric(a: string, b: string)
    requires LexLe(a, b) && LexLe(b, a)
    ensures a == b
  {
    if |a| > 0 {
      LexLeAntisymmetric(a[1..], b[1..]);
      assert a == [a[0]] + a[1..] && b == [b[0]] + b[1..];
    }
  }

  lemma {:induction false} LexLeTransitive(a: string, b: string, c: string)
    requires LexLe(a, b) && LexLe(b, c)
    ensures LexLe(a, c)
  {
    if |a| > 0 && a[0] == b[0] && b[0] == c[0] { LexLeTransitive(a[1..], b[1..], c[1..]); }
  }

  /**
   * Comparing two strings that start with pieces of one length: the first
   * pieces decide unless they are equal, and then the rests decide.
   */
  lemma {:induction false} LexLeConcat(p1: string, q1: string, p2: string, q2: string)
    requires |p1| == |p2|
    ensures LexLe(p1 + q1, p2 + q2) <==> if p1 == p2 then LexLe(q1, q2) else LexLe(p1, p2)
  {
    if |p1| > 0 {
      assert (p1 + q1)[1..] == p1[1..] + q1 && (p2 + q2)[1..] == p2[1..] + q2;
      LexLeConcat(p1[1..], q1, p2[1..], q2);
      if p1[0] == p2[0] {
        assert p1 == p2 <==> p1[1..] == p2[1..] by {
          assert p1 == [p1[0]] + p1[1..] && p2 == [p2[0]] + p2[1..];
        }
      }
    } else {
      assert p1 == p2 == [];
      assert p1 + q1 == q1 && p2 + q2 == q2;
    }
  }

  /** On digit strings of one length, lexicographic order is numeric order. */
  lemma {:induction false} LexLeDigits(a: string, b: string)
    requires AllDigits(a) && AllDigits(b) && |a| == |b|
    ensures LexLe(a, b) <==> DecimalValue(a) <= DecimalValue(b)
  {
    if a == [] {
      assert b == [];
    } else {
      var n := |a|;
      var a', b' := a[..n - 1], b[..n - 1];
      var x, y := a[n - 1], b[n - 1];
      assert a == a' + [x] && b == b' + [y];
      LexLeConcat(a', [x], b', [y]);
      LexLeDigits(a', b');
      if a' != b' {
        if DecimalValue(a') == DecimalValue(b') { DecimalValueInjective(a', b'); }
      } else {
        assert LexLe([x], [y]) <==> x <= y by { assert [x][1..] == []; }
      }
    }
  }

  // ------------------------------------------------------ substring search

  /** `sub` occurs in `s` starting at index `i`. */
  predicate OccursAt(s: string, sub: string, i: int)
  {
    0 <= i && i + |sub| <= |s| && s[i..i + |sub|] == sub
  }

  /** `s.includes(sub)`: whether `sub` occurs anywhere in `s`. */
  function Includes(s: string, sub: string): (r: bool)
    ensures r <==> exists i | 0 <= i <= |s| :: OccursAt(s, sub, i)
    decreases |s|
  {
    if |s| < |sub| then
      assert forall i | 0 <= i <= |s| :: !OccursAt(s, sub, i);
      false
    else if s[..|sub|] == sub then
      assert OccursAt(s, sub, 0);
      true
    else
      var r := Includes(s[1..], sub);
      assert !OccursAt(s, sub, 0);
      assert forall i | 1 <= i <= |s| :: OccursAt(s, sub, i) <==> OccursAt(s[1..], sub, i - 1);
      if r then
        var j :| 0 <= j <= |s[1..]| && OccursAt(s[1..], sub, j);
        assert OccursAt(s, sub, j + 1);
        true
      else
        false
  }

  // ---------------------------------------------------------- lower-casing

  function LowerChar(c: char): char
  {
    if 'A' <= c <= 'Z' then (c as int - 'A' as int + 'a' as int) as char else c
  }

  /** Two characters that are equal once ASCII capitals are replaced by their small letters. */
  predicate SameLetterIgnoringCase(a: char, b: char)
  {
    || a == b
    || ('A' <= a <= 'Z' && b as int == a as int + ('a' as int - 'A' as int))
    || ('A' <= b <= 'Z' && a as int == b as int + ('a' as int - 'A' as int))
  }

  /** `toLowerCase` restricted to ASCII letters: each capital becomes its own small letter, the rest stays. */
  function ToLowerAscii(s: string): (r: string)
    ensures |r| == |s|
    ensures forall i | 0 <= i < |r| :: !('A' <= r[i] <= 'Z')
    ensures forall i | 0 <= i < |s| :: 'A' <= s[i] <= 'Z' ==> r[i] as int == s[i] as int + ('a' as int - 'A' as int)
    ensures forall i | 0 <= i < |s| :: !('A' <= s[i] <= 'Z') ==> r[i] == s[i]
  {
    seq(|s|, i requires 0 <= i < |s| => LowerChar(s[i]))
  }

  /** Strings that differ only in the case of ASCII letters lower-case to the same string. */
  lemma ToLowerAsciiIgnoresCase(s: string, t: string)
    requires |s| == |t| && forall i | 0 <= i < |s| :: SameLetterIgnoringCase(s[i], t[i])
    ensures ToLowerAscii(s) == ToLowerAscii(t)
  {
    var a, b := ToLowerAscii(s), ToLowerAscii(t);
    forall i | 0 <= i < |s| ensures a[i] == b[i] {
      assert SameLetterIgnoringCase(s[i], t[i]);
    }
  }

  // ------------------------------------------------------------ line breaks

  predicate NoLineBreak(s: string) { '\n' !in s }

  /** `lines.join("\n")`: with break-free lines, the result has a break exactly when there are two lines or more. */
  function JoinLines(lines: seq<string>): (s: string)
    ensures (forall i | 0 <= i < |lines| :: NoLineBreak(lines[i])) ==> (NoLineBreak(s) <==> |lines| <= 1)
  {
    if |lines| == 0 then ""
    else if |lines| == 1 then lines[0]
    else
      var s := lines[0] + "\n" + JoinLines(lines[1..]);
      assert s[|lines[0]|] == '\n';
      s
  }

  /** `s.split("\n")`: the pieces between line breaks, always at least one. */
  function SplitLines(s: string): (r: seq<string>)
    ensures |r| >= 1
  {
    if s == [] then [""]
    else
      var rest := SplitLines(s[1..]);
      if s[0] == '\n' then [""] + rest else [[s[0]] + rest[0]] + rest[1..]
  }

  lemma {:induction false} SplitLinesNoBreak(s: string)
    requires NoLineBreak(s)
    ensures SplitLines(s) == [s]
  {
    if s != [] {
      SplitLinesNoBreak(s[1..]);
      assert [s[0]] + s[1..] == s;
    }
  }

  lemma {:induction false} SplitLinesAtBreak(x: string, y: string)
    requires NoLineBreak(x)
    ensures SplitLines(x + "\n" + y) == [x] + SplitLines(y)
  {
    if x == [] {
      assert x + "\n" + y == "\n" + y;
      assert ("\n" + y)[1..] == y;
    } else {
      assert (x + "\n" + y)[1..] == x[1..] + "\n" + y;
      SplitLinesAtBreak(x[1..], y);
      assert [x[0]] + x[1..] == x;
    }
  }

  /** Splitting a joined list of break-free lines gives the lines back. */
  lemma {:induction false} SplitJoinLines(lines: seq<string>)
    requires |lines| >= 1
    requires forall i | 0 <= i < |lines| :: NoLineBreak(lines[i])
    ensures SplitLines(JoinLines(lines)) == lines
  {
    if |lines| == 1 {
      SplitLinesNoBreak(lines[0]);
    } else {
      SplitLinesAtBreak(lines[0], JoinLines(lines[1..]));
      SplitJoinLines(lines[1..]);
      assert lines == [lines[0]] + lines[1..];
    }
  }
}

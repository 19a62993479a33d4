/** Zero-padded decimal text, as written by strftime's %H, %M, %m, %d and %Y
    directives, and its reading back. */
module Text {

  predicate IsDigit(c: char) {
    '0' <= c <= '9'
  }

  predicate AllDigits(s: string) {
    forall i :: 0 <= i < |s| ==> IsDigit(s[i])
  }

  function Digit(n: int): (c: char)
    requires 0 <= n < 10
    ensures IsDigit(c) && c as int - '0' as int == n
  {
    ('0' as int + n) as char
  }

  function DigitValue(c: char): (n: int)
    requires IsDigit(c)
    ensures 0 <= n < 10
    ensures Digit(n) == c
  {
    c as int - '0' as int
  }

  /** The number a string of decimal digits denotes (most significant first). */
  function Value(s: string): (n: nat)
    requires AllDigits(s)
  {
    if s == [] then 0 else Value(s[..|s| - 1]) * 10 + DigitValue(s[|s| - 1])
  }

  lemma ValueSnoc(s: string, c: char)
    requires AllDigits(s) && IsDigit(c)
    ensures AllDigits(s + [c]) && Value(s + [c]) == Value(s) * 10 + DigitValue(c)
  {
    assert (s + [c])[..|s|] == s;
  }

  /** Two digit strings of the same width that denote the same number are equal,
      so fixed-width decimal text has exactly one spelling per number. */
  lemma {:induction false} ValueInjective(s: string, t: string)
    requires AllDigits(s) && AllDigits(t) && |s| == |t|
    requires Value(s) == Value(t)
    ensures s == t
  {
    if s != [] {
      var n := |s| - 1;
      assert DigitValue(s[n]) == Value(s) % 10 == DigitValue(t[n]);
      assert Value(s[..n]) == Value(s) / 10 == Value(t[..n]);
      ValueInjective(s[..n], t[..n]);
      assert s == s[..n] + [s[n]] && t == t[..n] + [t[n]];
    }
  }

  /** Two-digit zero-padded text, as %H, %M, %m and %d write it. */
  function Pad2(n: int): (s: string)
    requires 0 <= n < 100
    ensures |s| == 2 && AllDigits(s) && Value(s) == n
  {
    var s := [Digit(n / 10), Digit(n % 10)];
    ValueSnoc([], s[0]);
    ValueSnoc([s[0]], s[1]);
    assert [s[0]] + [s[1]] == s;
    s
  }

  /** Appending two digits shifts the number two places. */
  lemma ValueAppend2(s: string, t: string)
    requires AllDigits(s) && AllDigits(t) && |t| == 2
    ensures AllDigits(s + t) && Value(s + t) == Value(s) * 100 + Value(t)
  {
    ValueSnoc(s, t[0]);
    ValueSnoc(s + [t[0]], t[1]);
    assert s + [t[0]] + [t[1]] == s + t;
    ValueSnoc([], t[0]);
    ValueSnoc([t[0]], t[1]);
    assert [t[0]] + [t[1]] == t;
  }

  /** Four-digit zero-padded text, as %Y writes a year. */
  function Pad4(n: int): (s: string)
    requires 0 <= n < 10000
    ensures |s| == 4 && AllDigits(s) && Value(s) == n
  {
    ValueAppend2(Pad2(n / 100), Pad2(n % 100));
    Pad2(n / 100) + Pad2(n % 100)
  }

  /** Reading two-digit text back and writing it again gives the same text. */
  lemma Pad2OfValue(s: string)
    requires |s| == 2 && AllDigits(s)
    ensures Value(s) < 100 && Pad2(Value(s)) == s
  {
    ValueSnoc([], s[0]);
    ValueSnoc([s[0]], s[1]);
    assert [s[0]] + [s[1]] == s;
    ValueInjective(Pad2(Value(s)), s);
  }

  /** Reading four-digit text back and writing it again gives the same text. */
  lemma Pad4OfValue(s: string)
    requires |s| == 4 && AllDigits(s)
    ensures Value(s) < 10000 && Pad4(Value(s)) == s
  {
    Pad2OfValue(s[..2]);
    Pad2OfValue(s[2..]);
    ValueAppend2(s[..2], s[2..]);
    assert s[..2] + s[2..] == s;
    ValueInjective(Pad4(Value(s)), s);
  }
}

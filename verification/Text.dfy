/**
 Python's text operations on ASCII text. `int` accepts a sign and single underscores between digits.
 */
module Text {
  import opened Wrappers

  predicate IsDigit(c: char) { '0' <= c <= '9' }

  predicate IsHex(c: char) { IsDigit(c) || 'a' <= c <= 'f' || 'A' <= c <= 'F' }

  predicate IsSpace(c: char) { c == ' ' || '\t' <= c <= '\r' || '\U{1c}' <= c <= '\U{1f}' }

  /** `s.split(sep)`. */
  function Split(s: string, sep: char): (items: seq<string>)
    ensures |items| > 0
  {
    if s == [] then [[]]
    else
      var rest := Split(s[1..], sep);
      if s[0] == sep then [[]] + rest else [[s[0]] + rest[0]] + rest[1..]
  }

  /** The first part and the rest of `s.partition(sep)`; None where sep is missing. */
  function Partition(s: string, sep: char): Option<(string, string)> {
    if s == [] then None
    else if s[0] == sep then Some(([], s[1..]))
    else
      match Partition(s[1..], sep)
      case None => None
      case Some((key, value)) => Some(([s[0]] + key, value))
  }

  function StripLeft(s: string): string {
    if s != [] && IsSpace(s[0]) then StripLeft(s[1..]) else s
  }

  function StripRight(s: string): string {
    if s != [] && IsSpace(s[|s| - 1]) then StripRight(s[..|s| - 1]) else s
  }

  function Strip(s: string): string {
    StripRight(StripLeft(s))
  }

  function Digit(d: nat): char
    requires d < 10
  {
    '0' + d as char
  }

  function DigitValue(c: char): nat
    requires IsDigit(c)
  {
    c as nat - 48
  }

  /** `str(n)`. */
  function Decimal(n: nat): (s: string)
    ensures |s| > 0
  {
    if n < 10 then [Digit(n)] else Decimal(n / 10) + [Digit(n % 10)]
  }

  /** Digits with single underscores between them, read from the left. */
  function Digits(s: string): Option<nat> {
    if s == [] || !IsDigit(s[|s| - 1]) then None
    else
      var last := DigitValue(s[|s| - 1]);
      var front := s[..|s| - 1];
      if front == [] then Some(last)
      else
        var before := if front[|front| - 1] == '_' then front[..|front| - 1] else front;
        match Digits(before)
        case None => None
        case Some(high) => Some(10 * high + last)
  }

  /** `int(s)`; None is the ValueError. */
  function ParseInt(s: string): Option<int> {
    var t := Strip(s);
    if t == [] then None
    else if t[0] == '-' || t[0] == '+' then
      match Digits(t[1..])
      case None => None
      case Some(n) =>
        var value: int := n;
        Some(if t[0] == '-' then -value else value)
    else
      match Digits(t)
      case None => None
      case Some(n) => Some(n)
  }

  // -- Laws ----------------------------------------------------------------------------------------

  /** The part before the first separator is one item. */
  lemma {:induction false} SplitFirst(head: string, sep: char, rest: string)
    requires forall i | 0 <= i < |head| :: head[i] != sep
    ensures Split(head + [sep] + rest, sep) == [head] + Split(rest, sep)
  {
    var all := head + [sep] + rest;
    if head == [] {
      assert all[1..] == rest;
      assert Split(all, sep) == [[]] + Split(rest, sep);
    } else {
      SplitFirst(head[1..], sep, rest);
      assert all[1..] == head[1..] + [sep] + rest;
      var tail := Split(all[1..], sep);
      assert tail[1..] == Split(rest, sep);
      assert [all[0]] + tail[0] == head;
    }
  }

  lemma {:induction false} SplitNothing(s: string, sep: char)
    requires forall i | 0 <= i < |s| :: s[i] != sep
    ensures Split(s, sep) == [s]
  {
    if s != [] {
      SplitNothing(s[1..], sep);
      assert [s[0]] + Split(s[1..], sep)[0] == s;
    } else {
      assert Split(s, sep) == [[]] == [s];
    }
  }

  lemma {:induction false} DecimalIsDigits(n: nat)
    ensures forall i | 0 <= i < |Decimal(n)| :: IsDigit(Decimal(n)[i])
  {
    if n >= 10 {
      DecimalIsDigits(n / 10);
    }
  }

  /** Reading undoes writing. */
  lemma {:induction false} DigitsOfDecimal(n: nat)
    ensures Digits(Decimal(n)) == Some(n)
  {
    if n >= 10 {
      DigitsOfDecimal(n / 10);
      DecimalIsDigits(n / 10);
      var s := Decimal(n);
      assert s[..|s| - 1] == Decimal(n / 10);
    }
  }

  /** The characters of the two classes, one by one. */
  lemma Classes(c: char)
    ensures IsDigit(c) <==> c in "0123456789"
    ensures IsHex(c) <==> c in "0123456789abcdefABCDEF"
    ensures IsSpace(c) <==> c in [' ', '\t', '\n', '\U{b}', '\U{c}', '\r', '\U{1c}', '\U{1d}', '\U{1e}', '\U{1f}']
  {
  }

  lemma {:induction false} StripLeftBlank(blank: string, s: string)
    requires (forall i | 0 <= i < |blank| :: IsSpace(blank[i])) && (s != "" ==> !IsSpace(s[0]))
    ensures StripLeft(blank + s) == s
  {
    if blank != "" {
      assert (blank + s)[1..] == blank[1..] + s;
      StripLeftBlank(blank[1..], s);
    } else {
      assert blank + s == s;
    }
  }

  lemma {:induction false} StripRightBlank(s: string, blank: string)
    requires (forall i | 0 <= i < |blank| :: IsSpace(blank[i])) && (s != "" ==> !IsSpace(s[|s| - 1]))
    ensures StripRight(s + blank) == s
  {
    if blank != "" {
      var n := |blank| - 1;
      assert (s + blank)[..|s + blank| - 1] == s + blank[..n];
      StripRightBlank(s, blank[..n]);
    } else {
      assert s + blank == s;
    }
  }

  /** Stripping takes off the white space at both ends, and no more. */
  lemma StripTakesOffBlanks(left: string, s: string, right: string)
    requires (forall i | 0 <= i < |left| :: IsSpace(left[i])) && forall i | 0 <= i < |right| :: IsSpace(right[i])
    requires s != "" && !IsSpace(s[0]) && !IsSpace(s[|s| - 1])
    ensures Strip(left + s + right) == s
  {
    assert left + s + right == left + (s + right);
    assert (s + right)[0] == s[0];
    StripLeftBlank(left, s + right);
    StripRightBlank(s, right);
  }

  /** `int` reads a number with its sign, between white space. */
  lemma ParseSigned(left: string, sign: string, n: nat, right: string)
    requires (forall i | 0 <= i < |left| :: IsSpace(left[i])) && forall i | 0 <= i < |right| :: IsSpace(right[i])
    requires sign in {"", "+", "-"}
    ensures
      var value: int := n;
      ParseInt(left + (sign + Decimal(n)) + right) == Some(if sign == "-" then -value else value)
  {
    hide Decimal, Digits, Strip;
    var s, d := sign + Decimal(n), Decimal(n);
    DecimalIsDigits(n);
    DigitsOfDecimal(n);
    assert s[|s| - 1] == d[|d| - 1];
    assert sign == "" ==> s == d;
    assert sign != "" ==> s[0] == sign[0] && s[1..] == d;
    StripTakesOffBlanks(left, s, right);
  }

  /** A single underscore between digits is skipped. */
  lemma {:induction false} UnderscoreIsSkipped(a: string, b: string)
    requires a != "" && b != "" && IsDigit(a[|a| - 1]) && forall i | 0 <= i < |b| :: IsDigit(b[i])
    ensures Digits(a + "_" + b) == Digits(a + b)
  {
    var n := |b| - 1;
    var s, t := a + "_" + b, a + b;
    assert s[|s| - 1] == b[n] == t[|t| - 1];
    if n == 0 {
      assert s[..|s| - 1] == a + "_" && t[..|t| - 1] == a;
      assert (a + "_")[..|a|] == a;
    } else {
      UnderscoreIsSkipped(a, b[..n]);
      assert s[..|s| - 1] == a + "_" + b[..n] && t[..|t| - 1] == a + b[..n];
      var u, v := a + "_" + b[..n], a + b[..n];
      assert u[|u| - 1] == b[n - 1] && v[|v| - 1] == b[n - 1];
    }
  }
}

/**
 * The string functions the handlers rely on: PHP's `trim`, the decimal
 * rendering of ids inside log messages, the digit-string test standing in
 * for `is_numeric`, and MySQL's `LIKE` under a case-insensitive collation.
 */
module Text {

  /** The characters PHP's `trim` strips by default: space, tab, newline, carriage return, NUL, vertical tab. */
  predicate IsTrimChar(c: char) {
    c == ' ' || c == '\t' || c == '\n' || c == '\r' || c == '\0' || c == '\U{B}'
  }

  function TrimLeft(s: string): (r: string)
    ensures |r| <= |s| && r == s[|s| - |r|..]
    ensures forall i :: 0 <= i < |s| - |r| ==> IsTrimChar(s[i])
    ensures r == [] || !IsTrimChar(r[0])
    decreases |s|
  {
    if s != [] && IsTrimChar(s[0]) then TrimLeft(s[1..]) else s
  }

  function TrimRight(s: string): (r: string)
    ensures |r| <= |s| && r == s[..|r|]
    ensures forall i :: |r| <= i < |s| ==> IsTrimChar(s[i])
    ensures r == [] || !IsTrimChar(r[|r| - 1])
    decreases |s|
  {
    if s != [] && IsTrimChar(s[|s| - 1]) then TrimRight(s[..|s| - 1]) else s
  }

  /** `r` is `s[k..]` cut short, with only trim characters outside it. */
  predicate TrimmedAt(s: string, r: string, k: int) {
    && 0 <= k && k + |r| <= |s| && r == s[k .. k + |r|]
    && (forall i :: 0 <= i < k ==> IsTrimChar(s[i]))
    && (forall i :: k + |r| <= i < |s| ==> IsTrimChar(s[i]))
  }

  /** Cutting a suffix of trim characters off a suffix of `s` left after trim characters gives an infix of `s`. */
  lemma TrimmedInside(s: string, left: string, r: string)
    requires |left| <= |s| && left == s[|s| - |left|..]
    requires forall i :: 0 <= i < |s| - |left| ==> IsTrimChar(s[i])
    requires |r| <= |left| && r == left[..|r|]
    requires forall i :: |r| <= i < |left| ==> IsTrimChar(left[i])
    ensures TrimmedAt(s, r, |s| - |left|)
  {
    var k := |s| - |left|;
    forall i | k + |r| <= i < |s|
      ensures IsTrimChar(s[i])
    {
      assert s[i] == left[i - k];
    }
  }

  /**
   * PHP `trim`: the infix of `s` left after removing trim characters at
   * both ends; characters inside are never touched.
   */
  function Trim(s: string): (r: string)
    ensures exists k :: TrimmedAt(s, r, k)
    ensures r == [] || (!IsTrimChar(r[0]) && !IsTrimChar(r[|r| - 1]))
  {
    var left := TrimLeft(s);
    var r := TrimRight(left);
    TrimmedInside(s, left, r);
    r
  }

  /** A string that neither starts nor ends with a trim character is its own trim. */
  lemma TrimOfTrimmed(s: string)
    requires s == [] || (!IsTrimChar(s[0]) && !IsTrimChar(s[|s| - 1]))
    ensures Trim(s) == s
  {
  }

  predicate IsDigit(c: char) {
    '0' <= c <= '9'
  }

  predicate IsDigits(s: string) {
    forall i :: 0 <= i < |s| ==> IsDigit(s[i])
  }

  function DigitChar(d: nat): (c: char)
    requires d < 10
    ensures IsDigit(c)
  {
    ('0' as int + d) as char
  }

  function DigitValue(c: char): (d: nat)
    requires IsDigit(c)
    ensures d < 10 && DigitChar(d) == c
  {
    c as int - '0' as int
  }

  /** Decimal rendering of a natural number, as PHP interpolates an int into a string. */
  function NatToString(n: nat): (s: string)
    ensures |s| >= 1 && IsDigits(s)
    ensures |s| > 1 ==> s[0] != '0'
    decreases n
  {
    if n < 10 then [DigitChar(n)] else NatToString(n / 10) + [DigitChar(n % 10)]
  }

  /** Decimal rendering of an integer: a minus sign before the digits of a negative one. */
  function IntToString(n: int): (s: string)
    ensures n >= 0 ==> s == NatToString(n)
    ensures n < 0 ==> s == "-" + NatToString(-n)
  {
    if n >= 0 then NatToString(n) else "-" + NatToString(-n)
  }

  /** The value of a string of decimal digits, as PHP's `(int)` cast reads it. */
  function ParseDigits(s: string): nat
    requires IsDigits(s)
    decreases |s|
  {
    if s == [] then 0 else ParseDigits(s[..|s| - 1]) * 10 + DigitValue(s[|s| - 1])
  }

  /** Rendering a number and reading it back gives the number. */
  lemma {:induction false} ParseOfNatToString(n: nat)
    ensures ParseDigits(NatToString(n)) == n
    decreases n
  {
    if n >= 10 {
      ParseOfNatToString(n / 10);
      var s := NatToString(n);
      assert s[..|s| - 1] == NatToString(n / 10);
    }
  }

  /** Distinct numbers render as distinct strings, so an id can be recovered from a log message. */
  lemma NatToStringInjective(m: nat, n: nat)
    requires NatToString(m) == NatToString(n)
    ensures m == n
  {
    ParseOfNatToString(m);
    ParseOfNatToString(n);
  }

  /** ASCII case folding, the part of a case-insensitive collation this model keeps. */
  function Fold(c: char): char {
    if 'A' <= c <= 'Z' then (c as int + 32) as char else c
  }

  predicate SameFolded(a: char, b: char) {
    Fold(a) == Fold(b)
  }

  /**
   * MySQL `text LIKE pattern`: `%` matches any run of characters, `_` any
   * one character, a backslash makes the next character literal, and every
   * other character matches itself up to case.
   */
  predicate Like(pattern: string, text: string)
    decreases |pattern| + |text|
  {
    if pattern == [] then text == []
    else if pattern[0] == '%' then Like(pattern[1..], text) || (text != [] && Like(pattern, text[1..]))
    else if pattern[0] == '_' then text != [] && Like(pattern[1..], text[1..])
    else if pattern[0] == '\\' && |pattern| >= 2 then
      text != [] && SameFolded(pattern[1], text[0]) && Like(pattern[2..], text[1..])
    else text != [] && SameFolded(pattern[0], text[0]) && Like(pattern[1..], text[1..])
  }

  /** A search string in which LIKE sees no special character. */
  predicate Plain(q: string) {
    forall i :: 0 <= i < |q| ==> q[i] != '%' && q[i] != '_' && q[i] != '\\'
  }

  /** `q` occurs in `text` at position `k`, up to case. */
  predicate MatchesAt(q: string, text: string, k: nat) {
    k + |q| <= |text| && forall i :: 0 <= i < |q| ==> SameFolded(q[i], text[k + i])
  }

  /** `q` occurs somewhere in `text`, up to case. */
  predicate ContainsFolded(text: string, q: string) {
    exists k :: 0 <= k <= |text| && MatchesAt(q, text, k)
  }

  /** A lone `%` matches everything. */
  lemma {:induction false} LikePercentAll(text: string)
    ensures Like("%", text)
    decreases |text|
  {
    if text != [] {
      LikePercentAll(text[1..]);
    }
  }

  /** `q%` matches exactly the texts that start with `q`, for a plain `q`. */
  lemma {:induction false} LikePrefix(q: string, text: string)
    requires Plain(q)
    ensures Like(q + "%", text) <==> MatchesAt(q, text, 0)
    decreases |q|
  {
    if q == [] {
      assert q + "%" == "%";
      LikePercentAll(text);
    } else {
      var p := q + "%";
      assert p[0] == q[0] && p[1..] == q[1..] + "%";
      if text != [] {
        LikePrefix(q[1..], text[1..]);
        assert MatchesAt(q, text, 0) <==> SameFolded(q[0], text[0]) && MatchesAt(q[1..], text[1..], 0) by {
          if SameFolded(q[0], text[0]) && MatchesAt(q[1..], text[1..], 0) {
            forall i | 0 <= i < |q|
              ensures SameFolded(q[i], text[i])
            {
              if i > 0 {
                assert q[1..][i - 1] == q[i];
                assert text[1..][i - 1] == text[i];
              }
            }
          }
        }
      }
    }
  }

  /** A pattern `%rest` matches when `rest` matches some suffix of the text. */
  lemma {:induction false} LikeLeadingPercent(rest: string, text: string)
    ensures Like("%" + rest, text) <==> exists k :: 0 <= k <= |text| && Like(rest, text[k..])
    decreases |text|
  {
    var p := "%" + rest;
    assert p[1..] == rest;
    assert text[0..] == text;
    if text != [] {
      LikeLeadingPercent(rest, text[1..]);
      if exists k :: 0 <= k <= |text| && Like(rest, text[k..]) {
        var k :| 0 <= k <= |text| && Like(rest, text[k..]);
        if k > 0 {
          assert text[1..][k - 1..] == text[k..];
        }
      }
      if exists k :: 0 <= k <= |text[1..]| && Like(rest, text[1..][k..]) {
        var k :| 0 <= k <= |text[1..]| && Like(rest, text[1..][k..]);
        assert text[1..][k..] == text[k + 1..];
      }
    }
  }

  /**
   * The search pattern `%q%` built from a plain `q` matches exactly the texts
   * that contain `q`, ignoring case.
   */
  lemma LikeContains(q: string, text: string)
    requires Plain(q)
    ensures Like("%" + q + "%", text) <==> ContainsFolded(text, q)
  {
    assert "%" + q + "%" == "%" + (q + "%");
    LikeLeadingPercent(q + "%", text);
    forall k | 0 <= k <= |text|
      ensures Like(q + "%", text[k..]) <==> MatchesAt(q, text, k)
    {
      LikePrefix(q, text[k..]);
      assert MatchesAt(q, text[k..], 0) <==> MatchesAt(q, text, k) by {
        assert forall i :: 0 <= i < |q| && k + i < |text| ==> text[k..][i] == text[k + i];
      }
    }
  }
}

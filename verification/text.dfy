/** The string operations the scraper applies to page text and year strings:
    Python's `str.replace(',', '')`, `str.strip()`, `int(...)` on a digit
    string and `str(...)` of an integer. */
module Text {

  /** Python's `str.isspace()` for one character: the ASCII controls tab to
      carriage return and 0x1C-0x1F, the space, and the Unicode spaces and
      separators. */
  predicate IsSpace(c: char) {
    || c == ' '
    || ('\t' <= c <= '\r')
    || ('\U{1C}' <= c <= '\U{1F}')
    || c == '\U{85}' || c == '\U{A0}' || c == '\U{1680}'
    || ('\U{2000}' <= c <= '\U{200A}')
    || c == '\U{2028}' || c == '\U{2029}' || c == '\U{202F}'
    || c == '\U{205F}' || c == '\U{3000}'
  }

  predicate AllSpace(s: string) {
    forall k :: 0 <= k < |s| ==> IsSpace(s[k])
  }

  /** A string with no white space at either end. */
  predicate Trimmed(s: string) {
    s == [] || (!IsSpace(s[0]) && !IsSpace(s[|s| - 1]))
  }

  /** `s.replace(',', '')`: every comma deleted, all other characters kept
      in order. */
  function RemoveCommas(s: string): (r: string)
    ensures ',' !in r
    ensures |r| <= |s|
    ensures forall c :: c != ',' ==> multiset(r)[c] == multiset(s)[c]
    decreases |s|
  {
    if s == [] then []
    else
      var rest := RemoveCommas(s[1..]);
      assert s == [s[0]] + s[1..];
      if s[0] == ',' then rest else [s[0]] + rest
  }

  /** Deleting commas commutes with concatenation, so it acts on each piece
      of a string independently and keeps the order of what it keeps. */
  lemma {:induction false} RemoveCommasAppend(a: string, b: string)
    ensures RemoveCommas(a + b) == RemoveCommas(a) + RemoveCommas(b)
    decreases |a|
  {
    if a == [] {
      assert a + b == b;
    } else {
      assert (a + b)[1..] == a[1..] + b;
      RemoveCommasAppend(a[1..], b);
    }
  }

  /** Text without commas is left unchanged. */
  lemma {:induction false} RemoveCommasNoComma(s: string)
    requires ',' !in s
    ensures RemoveCommas(s) == s
    decreases |s|
  {
    if s != [] {
      RemoveCommasNoComma(s[1..]);
    }
  }

  /** Number of white-space characters at the start of `s`. */
  function LeadingSpace(s: string): (n: nat)
    ensures n <= |s|
    ensures AllSpace(s[..n])
    ensures n < |s| ==> !IsSpace(s[n])
    decreases |s|
  {
    if s != [] && IsSpace(s[0]) then
      var n := 1 + LeadingSpace(s[1..]);
      assert forall k :: 1 <= k < n ==> s[..n][k] == s[1..][..n - 1][k - 1];
      n
    else 0
  }

  /** Number of white-space characters at the end of `s`. */
  function TrailingSpace(s: string): (n: nat)
    ensures n <= |s|
    ensures AllSpace(s[|s| - n..])
    ensures n < |s| ==> !IsSpace(s[|s| - n - 1])
  {
    var n := SpacesBefore(s, |s|);
    var tail := s[|s| - n..];
    assert forall k :: 0 <= k < n ==> tail[k] == s[|s| - n + k];
    n
  }

  /** Number of white-space characters just before position `j` of `s`. */
  function SpacesBefore(s: string, j: nat): (n: nat)
    requires j <= |s|
    ensures n <= j
    ensures forall k :: j - n <= k < j ==> IsSpace(s[k])
    ensures n < j ==> !IsSpace(s[j - n - 1])
    decreases j
  {
    if j > 0 && IsSpace(s[j - 1]) then 1 + SpacesBefore(s, j - 1) else 0
  }

  /** `s.strip()`: the one slice of `s` that is trimmed and is surrounded
      only by white space. */
  function Strip(s: string): (r: string)
    ensures Trimmed(r)
    ensures exists i, j :: 0 <= i <= j <= |s| && r == s[i..j] && AllSpace(s[..i]) && AllSpace(s[j..])
    ensures AllSpace(s) <==> r == []
  {
    var i := LeadingSpace(s);
    if i == |s| then
      assert s[i..i] == [] && s[i..] == [];
      []
    else
      var t := s[i..];
      var n := TrailingSpace(t);
      assert n < |t| by {
        assert !IsSpace(t[0]);
        assert n > 0 ==> t[|t| - n..][0] == t[|t| - n];
      }
      var r := s[i..|s| - n];
      assert Trimmed(r) by {
        assert r[0] == t[0] && r[|r| - 1] == t[|t| - n - 1];
      }
      assert AllSpace(s[|s| - n..]) by {
        assert t[|t| - n..] == s[|s| - n..];
      }
      assert !AllSpace(s) by { assert !IsSpace(s[i]); }
      assert 0 <= i <= |s| - n <= |s| && r == s[i..|s| - n] && AllSpace(s[..i]) && AllSpace(s[|s| - n..]);
      r
  }

  /** White space followed by text that starts with a non-space: the
      leading white space is exactly the padding. */
  lemma {:induction false} LeadingSpaceOfPadded(a: string, u: string)
    requires AllSpace(a)
    requires u == [] || !IsSpace(u[0])
    ensures LeadingSpace(a + u) == |a|
    decreases |a|
  {
    if a == [] {
      assert a + u == u;
    } else {
      assert (a + u)[1..] == a[1..] + u;
      LeadingSpaceOfPadded(a[1..], u);
    }
  }

  /** Text that ends in a non-space followed by white space: the trailing
      white space is exactly the padding. */
  lemma {:induction false} TrailingSpaceOfPadded(u: string, b: string)
    requires AllSpace(b)
    requires u == [] || !IsSpace(u[|u| - 1])
    ensures TrailingSpace(u + b) == |b|
    decreases |b|
  {
    if b == [] {
      assert u + b == u;
    } else {
      var b' := b[..|b| - 1];
      assert (u + b)[..|u + b| - 1] == u + b';
      TrailingSpaceOfPadded(u, b');
    }
  }

  /** The partner of `Strip`: padding a trimmed string with white space on
      both sides and stripping it gives the string back. */
  lemma {:induction false} StripPadded(a: string, t: string, b: string)
    requires AllSpace(a) && AllSpace(b) && Trimmed(t)
    ensures Strip(a + t + b) == t
  {
    var s := a + t + b;
    if t == [] {
      assert AllSpace(s) by {
        forall k | 0 <= k < |s| ensures IsSpace(s[k]) {
          if k < |a| { assert s[k] == a[k]; } else { assert s[k] == b[k - |a|]; }
        }
      }
    } else {
      assert LeadingSpace(s) == |a| by {
        assert s == a + (t + b);
        LeadingSpaceOfPadded(a, t + b);
      }
      assert TrailingSpace(s[|a|..]) == |b| by {
        assert s[|a|..] == t + b;
        TrailingSpaceOfPadded(t, b);
      }
      StripAt(s, |a|, |b|);
      assert s[|a|..|s| - |b|] == t;
    }
  }

  /** Once the leading and trailing white space are known, `Strip` is the
      slice between them. */
  lemma {:induction false} StripAt(s: string, i: nat, n: nat)
    requires i < |s| && LeadingSpace(s) == i
    requires TrailingSpace(s[i..]) == n
    ensures Strip(s) == s[i..|s| - n]
  {
  }

  predicate IsDigit(c: char) {
    '0' <= c <= '9'
  }

  predicate IsDigits(s: string) {
    forall k :: 0 <= k < |s| ==> IsDigit(s[k])
  }

  /** What Python's `int(...)` accepts in this model: a non-empty string of
      ASCII decimal digits. */
  predicate IsIntegerText(s: string) {
    |s| > 0 && IsDigits(s)
  }

  /** The number a digit string denotes (leading zeros allowed, as in
      `int("0023") == 23`). */
  function DigitsValue(s: string): nat
    requires IsDigits(s)
    decreases |s|
  {
    if s == [] then 0
    else 10 * DigitsValue(s[..|s| - 1]) + (s[|s| - 1] as int - '0' as int)
  }

  function DigitChar(d: nat): (c: char)
    requires d < 10
    ensures IsDigit(c) && c as int - '0' as int == d
  {
    (d + '0' as int) as char
  }

  /** A decimal numeral as Python's `str` prints it: digits, at least one,
      and no leading zero unless the numeral is "0" itself. */
  predicate Canonical(s: string) {
    IsIntegerText(s) && (|s| > 1 ==> s[0] != '0')
  }

  /** A canonical numeral other than "0" is worth at least one. */
  lemma {:induction false} CanonicalPositive(s: string)
    requires Canonical(s) && s != "0"
    ensures DigitsValue(s) >= 1
    decreases |s|
  {
    var n := |s| - 1;
    if n > 0 {
      var p := s[..n];
      assert p[0] == s[0];
      assert forall k :: 0 <= k < |p| ==> p[k] == s[k];
      CanonicalPositive(p);
    } else {
      assert s == [s[0]];
    }
  }

  /** A numeral's value fixes its canonical spelling: two canonical
      numerals worth the same are the same string. */
  lemma {:induction false} CanonicalUnique(a: string, b: string)
    requires Canonical(a) && Canonical(b)
    requires DigitsValue(a) == DigitsValue(b)
    ensures a == b
    decreases |a|
  {
    var m, n := |a| - 1, |b| - 1;
    if m > 0 && n > 0 {
      var pa, pb := a[..m], b[..n];
      assert pa[0] == a[0] && pb[0] == b[0];
      assert forall k :: 0 <= k < |pa| ==> pa[k] == a[k];
      assert forall k :: 0 <= k < |pb| ==> pb[k] == b[k];
      assert DigitsValue(pa) == DigitsValue(a) / 10 && DigitsValue(pb) == DigitsValue(b) / 10;
      CanonicalUnique(pa, pb);
      assert a[m] == b[n] by {
        assert a[m] as int - '0' as int == DigitsValue(a) % 10;
        assert b[n] as int - '0' as int == DigitsValue(b) % 10;
      }
      assert a == pa + [a[m]] && b == pb + [b[n]];
    } else if m > 0 {
      LongNumeralAtLeastTen(a);
    } else if n > 0 {
      LongNumeralAtLeastTen(b);
    } else {
      assert DigitsValue(a) == a[0] as int - '0' as int;
      assert DigitsValue(b) == b[0] as int - '0' as int;
    }
  }

  /** A canonical numeral of two or more digits is worth at least ten. */
  lemma {:induction false} LongNumeralAtLeastTen(s: string)
    requires Canonical(s) && |s| > 1
    ensures DigitsValue(s) >= 10
  {
    var p := s[..|s| - 1];
    assert p[0] == s[0];
    assert forall k :: 0 <= k < |p| ==> p[k] == s[k];
    assert p != "0" by {
      if |p| == 1 { assert p[0] != '0'; }
    }
    CanonicalPositive(p);
  }

  /** `str(n)` for a non-negative integer: the canonical decimal numeral,
      which reads back as `n` and has no leading zero. */
  function NatToString(n: nat): (r: string)
    ensures Canonical(r) && DigitsValue(r) == n
    ensures n < 10 <==> |r| == 1
    decreases n
  {
    if n < 10 then [DigitChar(n)]
    else
      var p := NatToString(n / 10);
      var r := p + [DigitChar(n % 10)];
      assert r[..|r| - 1] == p;
      r
  }

  /** `str(n)` for any integer: a minus sign before the numeral of `-n`
      when `n` is negative. */
  function IntToString(n: int): (r: string)
    ensures n >= 0 ==> Canonical(r) && DigitsValue(r) == n
    ensures n < 0 ==> |r| > 1 && r[0] == '-' && Canonical(r[1..]) && DigitsValue(r[1..]) == -n
  {
    if n < 0 then
      var r := "-" + NatToString(-n);
      assert r[1..] == NatToString(-n);
      r
    else NatToString(n)
  }

  /** Four-digit numbers print as exactly four digits. */
  lemma {:induction false} FourDigitNumeral(n: nat)
    requires 1000 <= n <= 9999
    ensures |NatToString(n)| == 4
  {
    assert n / 10 / 10 == n / 100 && n / 100 / 10 == n / 1000;
    assert |NatToString(n / 1000)| == 1;
    assert |NatToString(n / 100)| == 2;
    assert |NatToString(n / 10)| == 3;
  }
}

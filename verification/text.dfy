/** Decimal rendering and parsing of integers, and small predicates on strings.
    JavaScript renders a number with `'' + n`; for the integers this model handles that
    is the plain decimal form, with a leading '-' for negatives. */
module Text {
  import opened Options

  predicate IsDigit(c: char) {
    '0' <= c <= '9'
  }

  predicate AllDigits(s: string) {
    forall i :: 0 <= i < |s| ==> IsDigit(s[i])
  }

  function DigitChar(d: nat): (c: char)
    requires d < 10
    ensures IsDigit(c)
  {
    ('0' as int + d) as char
  }

  function DigitValue(c: char): (d: nat)
    requires IsDigit(c)
    ensures d < 10
  {
    c as int - '0' as int
  }

  /** Decimal digits of `n`, most significant first, without leading zeros. */
  function NatToString(n: nat): (s: string)
    ensures |s| > 0 && AllDigits(s)
    ensures n < 10 <==> |s| == 1
  {
    if n < 10 then [DigitChar(n)] else NatToString(n / 10) + [DigitChar(n % 10)]
  }

  /** JavaScript's `'' + i` for an integer-valued number. */
  function IntToString(i: int): (s: string)
    ensures |s| > 0
  {
    if i < 0 then "-" + NatToString(-i) else NatToString(i)
  }

  /** The value of a string of decimal digits (0 for the empty string). */
  function ParseNat(s: string): nat
    requires AllDigits(s)
  {
    if |s| == 0 then 0 else 10 * ParseNat(s[..|s| - 1]) + DigitValue(s[|s| - 1])
  }

  /** Digits as `NatToString` writes them: at least one, and no leading '0' unless the
      number is 0 itself. */
  predicate CanonicalDigits(s: string) {
    |s| > 0 && AllDigits(s) && (s[0] == '0' ==> |s| == 1)
  }

  /** Reads an integer written the way `IntToString` writes it: an optional '-' before
      canonical digits, and no "-0". Anything else, leading zeros included, is rejected. */
  function ParseInt(s: string): Option<int> {
    if |s| > 1 && s[0] == '-' && CanonicalDigits(s[1..]) && s[1..] != "0" then Some(-(ParseNat(s[1..]) as int))
    else if CanonicalDigits(s) then Some(ParseNat(s) as int)
    else None
  }

  lemma DigitRoundTrip(d: nat)
    requires d < 10
    ensures DigitValue(DigitChar(d)) == d
  {
  }

  lemma DigitCharOfValue(c: char)
    requires IsDigit(c)
    ensures DigitChar(DigitValue(c)) == c
  {
  }

  /** The rendering of `n` starts with '0' exactly when `n` is 0. */
  lemma {:induction false} NatToStringLead(n: nat)
    ensures NatToString(n)[0] == '0' <==> n == 0
  {
    if n >= 10 {
      NatToStringLead(n / 10);
      assert NatToString(n)[0] == NatToString(n / 10)[0];
    }
  }

  /** Reading back the decimal rendering of a natural number gives the number. */
  lemma {:induction false} NatToStringRoundTrip(n: nat)
    ensures ParseNat(NatToString(n)) == n
  {
    if n >= 10 {
      var s := NatToString(n);
      assert s == NatToString(n / 10) + [DigitChar(n % 10)];
      assert s[..|s| - 1] == NatToString(n / 10);
      NatToStringRoundTrip(n / 10);
      DigitRoundTrip(n % 10);
    }
  }

  /** Canonical digits are the rendering of the number they denote. */
  lemma {:induction false} ParseNatRoundTrip(s: string)
    requires CanonicalDigits(s)
    ensures NatToString(ParseNat(s)) == s
    decreases |s|
  {
    var last := s[|s| - 1];
    DigitCharOfValue(last);
    if |s| > 1 {
      var front := s[..|s| - 1];
      assert front[0] == s[0];
      ParseNatRoundTrip(front);
      var m := ParseNat(front);
      NatToStringLead(m);
      var n := ParseNat(s);
      assert n == 10 * m + DigitValue(last);
      assert n / 10 == m && n % 10 == DigitValue(last);
      assert s == front + [last];
    }
  }

  /** Reading back the decimal rendering of an integer gives the integer. */
  lemma IntToStringRoundTrip(i: int)
    ensures ParseInt(IntToString(i)) == Some(i)
  {
    if i < 0 {
      NegativeReadBack(-i);
    } else {
      NatReadBack(i);
    }
  }

  /** The rendering of a natural number is canonical and reads back as it. */
  lemma NatReadBack(n: nat)
    ensures ParseInt(NatToString(n)) == Some(n)
  {
    var s := NatToString(n);
    NatToStringLead(n);
    NatToStringRoundTrip(n);
    assert CanonicalDigits(s);
    assert !IsDigit('-') && s[0] != '-';
  }

  /** `-n` rendered for a positive `n` reads back as `-n`. */
  lemma NegativeReadBack(n: nat)
    requires n > 0
    ensures ParseInt("-" + NatToString(n)) == Some(-(n as int))
  {
    var t := NatToString(n);
    var s := "-" + t;
    assert s[1..] == t;
    NatToStringLead(n);
    NatToStringRoundTrip(n);
    assert CanonicalDigits(t) && t != "0";
  }

  /** The only text that reads as `i` is the decimal rendering of `i`: the reader and the
      writer are inverse both ways. */
  lemma ParseIntCanonical(s: string, i: int)
    requires ParseInt(s) == Some(i)
    ensures s == IntToString(i)
  {
    if |s| > 1 && s[0] == '-' && CanonicalDigits(s[1..]) && s[1..] != "0" {
      var t := s[1..];
      ParseNatRoundTrip(t);
      assert ParseNat(t) != 0;
      assert s == "-" + t;
    } else {
      ParseNatRoundTrip(s);
    }
  }

  /** A decimal rendering never contains a character other than '-' and digits. */
  lemma IntToStringChars(i: int)
    ensures forall k :: 0 <= k < |IntToString(i)| ==>
      IntToString(i)[k] == '-' || IsDigit(IntToString(i)[k])
  {
  }

  /** The position of the first `c` in `s`, if any (`s.indexOf(c)`). */
  function FindChar(s: string, c: char): (r: Option<nat>)
    ensures r.Some? ==> r.value < |s| && s[r.value] == c
    ensures r.Some? ==> forall i :: 0 <= i < r.value ==> s[i] != c
    ensures r.None? ==> forall i :: 0 <= i < |s| ==> s[i] != c
  {
    if |s| == 0 then None
    else if s[0] == c then Some(0)
    else match FindChar(s[1..], c)
      case None => None
      case Some(k) => Some(k + 1)
  }

  /** A position holding `c` with no `c` before it is what `FindChar` reports. */
  lemma FindCharFirst(s: string, c: char, k: nat)
    requires k < |s| && s[k] == c
    requires forall i :: 0 <= i < k ==> s[i] != c
    ensures FindChar(s, c) == Some(k)
  {
  }

  predicate StartsWith(s: string, prefix: string) {
    |prefix| <= |s| && s[..|prefix|] == prefix
  }

  predicate EndsWith(s: string, suffix: string) {
    |suffix| <= |s| && s[|s| - |suffix|..] == suffix
  }

  /** A concatenation starts with its first part and ends with its second. */
  lemma ConcatBounds(a: string, b: string)
    ensures StartsWith(a + b, a) && EndsWith(a + b, b)
  {
    assert (a + b)[..|a|] == a;
    assert (a + b)[|a + b| - |b|..] == b;
  }

  /** Whether `a + b` ends with something no longer than `b` depends on `b` alone. */
  lemma EndsWithConcat(a: string, b: string, x: string)
    requires |x| <= |b|
    ensures EndsWith(a + b, x) <==> EndsWith(b, x)
  {
    assert (a + b)[|a + b| - |x|..] == b[|b| - |x|..];
  }

  /** A beginning of a beginning is a beginning. */
  lemma StartsWithTrans(s: string, w: string, x: string)
    requires StartsWith(s, w) && StartsWith(w, x)
    ensures StartsWith(s, x)
  {
    assert s[..|x|] == s[..|w|][..|x|];
  }

  /** The three parts of `a + b + c` are where they were put. */
  lemma Sandwich(a: string, b: string, c: string)
    ensures StartsWith(a + b + c, a)
    ensures (a + b + c)[|a|..|a| + |b|] == b
    ensures EndsWith(a + b + c, c)
  {
    assert (a + b + c)[..|a|] == a;
    assert (a + b + c)[|a|..|a| + |b|] == b;
    assert (a + b + c)[|a| + |b|..] == c;
  }

  /** `a + b + c` ends with `b + c`. */
  lemma EndsWithLastTwo(a: string, b: string, c: string)
    ensures EndsWith(a + b + c, b + c)
  {
    assert (a + b + c)[|a|..] == b + c;
  }

  /** The four parts of `a + b + c + d` are where they were put. */
  lemma FourParts(a: string, b: string, c: string, d: string)
    ensures var s := a + b + c + d;
      && |s| == |a| + |b| + |c| + |d|
      && StartsWith(s, a)
      && s[|a|..|a| + |b|] == b
      && s[|a| + |b|..|a| + |b| + |c|] == c
      && EndsWith(s, d)
  {
    var s := a + b + c + d;
    assert s[..|a|] == a;
    assert s[|a|..|a| + |b|] == b;
    assert s[|a| + |b|..|a| + |b| + |c|] == c;
    assert s[|s| - |d|..] == d;
  }

  /** Cutting `a + b` where they meet gives back `a` and `b`. */
  lemma CutConcat(a: string, b: string)
    ensures (a + b)[..|a|] == a && (a + b)[|a|..] == b
  {
  }

  /** Cutting `a + y` around a stretch of `y` gives `a` followed by the cut of `y`. */
  lemma CutAfterPrefix(a: string, y: string, i: nat, j: nat)
    requires i <= j <= |y|
    ensures (a + y)[..|a| + i] == a + y[..i]
    ensures (a + y)[|a| + j..] == y[j..]
  {
    assert (a + y)[..|a| + i] == a + y[..i];
    assert (a + y)[|a| + j..] == y[j..];
  }

  /** A text that starts with `a + b` starts with `a`. */
  lemma StartsWithShorter(s: string, a: string, b: string)
    requires StartsWith(s, a + b)
    ensures StartsWith(s, a)
  {
    assert s[..|a|] == s[..|a + b|][..|a|];
  }

  /** Putting the same text in front keeps a beginning. */
  lemma StartsWithPrepend(a: string, s: string, w: string)
    requires StartsWith(s, w)
    ensures StartsWith(a + s, a + w)
  {
    assert (a + s)[..|a + w|] == a + s[..|w|];
  }

  /** An ending of an ending is an ending. */
  lemma EndsWithTrans(s: string, w: string, x: string)
    requires EndsWith(s, w) && EndsWith(w, x)
    ensures EndsWith(s, x)
  {
    assert s[|s| - |x|..] == s[|s| - |w|..][|w| - |x|..];
  }

  /** The number of occurrences of `c` in `s`. */
  function CountChar(s: string, c: char): nat {
    if |s| == 0 then 0 else CountChar(s[..|s| - 1], c) + (if s[|s| - 1] == c then 1 else 0)
  }

  /** A string without `c` has no occurrences of it. */
  lemma {:induction false} CountCharNone(s: string, c: char)
    requires forall i :: 0 <= i < |s| ==> s[i] != c
    ensures CountChar(s, c) == 0
  {
    if |s| > 0 {
      CountCharNone(s[..|s| - 1], c);
    }
  }

  /** Occurrences of a character add up over concatenation. */
  lemma {:induction false} CountCharAppend(a: string, b: string, c: char)
    ensures CountChar(a + b, c) == CountChar(a, c) + CountChar(b, c)
  {
    if |b| > 0 {
      assert (a + b)[..|a + b| - 1] == a + b[..|b| - 1];
      CountCharAppend(a, b[..|b| - 1], c);
    } else {
      assert a + b == a;
    }
  }
}

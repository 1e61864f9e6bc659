/** The placeholder rewriter `parameterizedSQL` (lib/mssql.js:462-477): every `(?)`
    marker, left to right, becomes `@param1`, `@param2`, ... The scan is not aware of
    SQL string literals, so a `(?)` inside a literal is rewritten too. */
module Placeholders {
  import opened Text

  const Marker: string := "(?)"

  /** The three characters of the marker start at `p`. */
  predicate MarkerAt(s: string, p: int) {
    0 <= p && p + 3 <= |s| && s[p] == '(' && s[p + 1] == '?' && s[p + 2] == ')'
  }

  predicate NoMarker(s: string) {
    forall p | 0 <= p < |s| :: !MarkerAt(s, p)
  }

  /** No character of `t` can be part of a marker. */
  predicate NoMarkerChars(t: string) {
    forall k :: 0 <= k < |t| ==> t[k] != '(' && t[k] != '?' && t[k] != ')'
  }

  /** The text that replaces the `k`-th marker: `'@param' + count`. */
  function Placeholder(k: nat): string {
    "@param" + NatToString(k)
  }

  /** `s.indexOf('(?)', from)`, searching from position `from`. */
  function IndexFrom(s: string, from: nat): (r: int)
    ensures r == -1 || (from <= r && MarkerAt(s, r))
    decreases |s| - from
  {
    if from + 3 > |s| then -1
    else if MarkerAt(s, from) then from
    else IndexFrom(s, from + 1)
  }

  /** The search from `from` misses no marker: it fails only when there is none from
      there on, and otherwise stops at the first. */
  lemma {:induction false} IndexFromFirst(s: string, from: nat)
    ensures IndexFrom(s, from) == -1 ==> forall p :: from <= p ==> !MarkerAt(s, p)
    ensures IndexFrom(s, from) != -1 ==> forall p :: from <= p < IndexFrom(s, from) ==> !MarkerAt(s, p)
    decreases |s| - from
  {
    if from + 3 <= |s| && !MarkerAt(s, from) {
      IndexFromFirst(s, from + 1);
    }
  }

  /** `s.indexOf('(?)')`: the first marker, or -1 when there is none. */
  function IndexOf(s: string): (r: int)
    ensures r == -1 || MarkerAt(s, r)
  {
    IndexFrom(s, 0)
  }

  /** `indexOf` is -1 exactly when the text holds no marker, and otherwise finds the
      first one. */
  lemma IndexOfFirst(s: string)
    ensures IndexOf(s) == -1 <==> NoMarker(s)
    ensures IndexOf(s) != -1 ==> forall p :: 0 <= p < IndexOf(s) ==> !MarkerAt(s, p)
  {
    IndexFromFirst(s, 0);
  }

  /** The number of markers in `s`, counted left to right. */
  function MarkerCount(s: string): nat
    decreases |s|
  {
    var i := IndexOf(s);
    if i == -1 then 0 else 1 + MarkerCount(s[i + 3..])
  }

  /** The reference rewriting: the first marker becomes `Placeholder(k)` and the rest of
      the text is rewritten from `k + 1`. */
  function Rewrite(s: string, k: nat): (r: string)
    ensures NoMarker(r)
    decreases |s|
  {
    var i := IndexOf(s);
    IndexOfFirst(s);
    if i == -1 then s
    else
      var rest := Rewrite(s[i + 3..], k + 1);
      BeforeFirstMarker(s);
      PlaceholderHasNoMarkerChars(k);
      SpliceMarkers(s[..i] + Placeholder(k) + rest, s[..i], Placeholder(k), rest);
      s[..i] + Placeholder(k) + rest
  }

  lemma PlaceholderHasNoMarkerChars(k: nat)
    ensures |Placeholder(k)| > 0 && NoMarkerChars(Placeholder(k))
  {
    var d := NatToString(k);
    assert forall j :: 0 <= j < |d| ==> IsDigit(d[j]);
  }

  /** The text before the first marker holds no marker. */
  lemma BeforeFirstMarker(s: string)
    requires IndexOf(s) != -1
    ensures NoMarker(s[..IndexOf(s)])
  {
    var i := IndexOf(s);
    IndexOfFirst(s);
    forall p | 0 <= p < i && MarkerAt(s[..i], p) ensures false {
      assert MarkerAt(s, p);
    }
  }

  /** A marker in `x + t + y`, where no character of `t` can belong to a marker, lies
      wholly inside `x` or wholly inside `y`. */
  lemma SpliceMarkers(s: string, x: string, t: string, y: string)
    requires s == x + t + y
    requires |t| > 0 && NoMarkerChars(t)
    ensures forall p :: MarkerAt(s, p) <==>
      (p + 3 <= |x| && MarkerAt(x, p)) || (p >= |x| + |t| && MarkerAt(y, p - |x| - |t|))
  {
    forall p
      ensures MarkerAt(s, p) <==>
        (p + 3 <= |x| && MarkerAt(x, p)) || (p >= |x| + |t| && MarkerAt(y, p - |x| - |t|))
    {
      if 0 <= p && p + 3 <= |s| && p + 3 > |x| && p < |x| + |t| {
        var j := if p >= |x| then p else |x|;
        assert p <= j < p + 3 && s[j] == t[j - |x|];
      }
    }
  }

  /** Where a marker-free `x` is followed by text `t` that cannot take part in a marker,
      the first marker of `x + t + y` is the first marker of `y`, shifted. */
  lemma SpliceIndex(x: string, t: string, y: string)
    requires NoMarker(x) && |t| > 0 && NoMarkerChars(t)
    ensures IndexOf(x + t + y) ==
      (if IndexOf(y) == -1 then -1 else |x| + |t| + IndexOf(y))
  {
    var s := x + t + y;
    SpliceMarkers(s, x, t, y);
    IndexOfFirst(s);
    IndexOfFirst(y);
    var j := IndexOf(y);
    if j == -1 {
      assert NoMarker(s);
    } else {
      assert MarkerAt(s, |x| + |t| + j);
      assert forall p :: 0 <= p < |x| + |t| + j ==> !MarkerAt(s, p);
    }
  }

  /** One step of the source's loop: replacing the first marker of `s` by
      `Placeholder(k)` removes exactly one marker and leaves a text whose reference
      rewriting from `k + 1` is the reference rewriting of `s` from `k`. */
  lemma SpliceStep(s: string, k: nat)
    requires IndexOf(s) != -1
    ensures var i := IndexOf(s);
      var s' := s[..i] + Placeholder(k) + s[i + 3..];
      && MarkerCount(s') + 1 == MarkerCount(s)
      && Rewrite(s', k + 1) == Rewrite(s, k)
  {
    var i := IndexOf(s);
    PlaceholderHasNoMarkerChars(k);
    BeforeFirstMarker(s);
    SpliceCount(s[..i], Placeholder(k), s[i + 3..]);
    SpliceRewrite(s[..i], Placeholder(k), s[i + 3..], k);
  }

  lemma SpliceCount(x: string, t: string, y: string)
    requires NoMarker(x) && |t| > 0 && NoMarkerChars(t)
    ensures MarkerCount(x + t + y) == MarkerCount(y)
  {
    var s' := x + t + y;
    SpliceIndex(x, t, y);
    var j := IndexOf(y);
    if j != -1 {
      var q := |x| + |t| + j;
      assert s'[q + 3..] == y[j + 3..];
      assert MarkerCount(s') == 1 + MarkerCount(y[j + 3..]);
    }
  }

  /** The reference rewriting of a text with a marker, one step unfolded. */
  lemma RewriteFirst(s: string, k: nat)
    requires IndexOf(s) != -1
    ensures Rewrite(s, k) == s[..IndexOf(s)] + Placeholder(k) + Rewrite(s[IndexOf(s) + 3..], k + 1)
  {
  }

  lemma SpliceRewrite(x: string, t: string, y: string, k: nat)
    requires NoMarker(x) && |t| > 0 && NoMarkerChars(t)
    ensures Rewrite(x + t + y, k + 1) == x + t + Rewrite(y, k + 1)
  {
    SpliceIndex(x, t, y);
    if IndexOf(y) != -1 {
      SpliceRewriteAt(x + t, y, k);
    }
  }

  /** Where the first marker of `a + y` is the first marker of `y`, shifted, rewriting
      `a + y` leaves `a` alone. */
  lemma SpliceRewriteAt(a: string, y: string, k: nat)
    requires IndexOf(y) != -1 && IndexOf(a + y) == |a| + IndexOf(y)
    ensures Rewrite(a + y, k + 1) == a + Rewrite(y, k + 1)
  {
    var j := IndexOf(y);
    RewriteFirst(a + y, k + 1);
    RewriteFirst(y, k + 1);
    CutAfterPrefix(a, y, j, j + 3);
    var b, c, d := y[..j], Placeholder(k + 1), Rewrite(y[j + 3..], k + 2);
    assert a + b + c + d == a + (b + c + d);
  }

  /** `parameterizedSQL`, as the source writes it: search the whole text for the first
      marker, splice in the next numbered placeholder, repeat until none is left. The
      loop ends because every splice removes exactly one marker and the inserted text
      can never form a new one. */
  method ParameterizedSql(sql0: string) returns (sql: string)
    ensures sql == Rewrite(sql0, 1)
    ensures NoMarker(sql)
    ensures MarkerCount(sql0) == 0 ==> sql == sql0
  {
    var count := 0;
    sql := sql0;
    while true
      invariant Rewrite(sql, count + 1) == Rewrite(sql0, 1)
      decreases MarkerCount(sql)
    {
      var index := IndexOf(sql);
      if index == -1 {
        break;
      }
      SpliceStep(sql, count + 1);
      count := count + 1;
      sql := sql[..index] + Placeholder(count) + sql[index + 3..];
    }
  }

  /** `pieces[0] + names[0] + pieces[1] + names[1] + ... + pieces[n]`. */
  function Interleave(pieces: seq<string>, names: seq<string>): string
    requires |pieces| == |names| + 1
    decreases |names|
  {
    if |names| == 0 then pieces[0]
    else pieces[0] + names[0] + Interleave(pieces[1..], names[1..])
  }

  /** The text between consecutive markers, left to right. */
  function Split(s: string): (pieces: seq<string>)
    ensures |pieces| == MarkerCount(s) + 1
    ensures forall k :: 0 <= k < |pieces| ==> NoMarker(pieces[k])
    decreases |s|
  {
    var i := IndexOf(s);
    IndexOfFirst(s);
    if i == -1 then [s]
    else
      BeforeFirstMarker(s);
      [s[..i]] + Split(s[i + 3..])
  }

  /** The names `Placeholder(from)`, ..., `Placeholder(from + n - 1)`. */
  function PlaceholdersFrom(from: nat, n: nat): (names: seq<string>)
    ensures |names| == n
    ensures forall k :: 0 <= k < n ==> names[k] == Placeholder(from + k)
  {
    seq(n, k requires 0 <= k => Placeholder(from + k))
  }

  /** `n` copies of the marker. */
  function Markers(n: nat): (r: seq<string>)
    ensures |r| == n
  {
    if n == 0 then [] else [Marker] + Markers(n - 1)
  }

  /** The first marker splits `s` into the text before it and the text after it. */
  lemma SplitFirst(s: string)
    requires IndexOf(s) != -1
    ensures var i := IndexOf(s);
      && Split(s) == [s[..i]] + Split(s[i + 3..])
      && MarkerCount(s) == 1 + MarkerCount(s[i + 3..])
      && s == s[..i] + Marker + s[i + 3..]
  {
    var i := IndexOf(s);
    assert s[i..i + 3] == Marker;
    assert s == s[..i] + s[i..i + 3] + s[i + 3..];
  }

  /** Putting the markers back between the pieces gives the original text: the pieces
      are exactly the marker-free stretches of `s`. */
  lemma {:induction false} SplitRejoins(s: string)
    ensures Interleave(Split(s), Markers(MarkerCount(s))) == s
    decreases |s|
  {
    var i := IndexOf(s);
    if i != -1 {
      var y := s[i + 3..];
      SplitRejoins(y);
      SplitFirst(s);
      var pieces := Split(s);
      var markers := Markers(MarkerCount(s));
      assert pieces[0] == s[..i] && pieces[1..] == Split(y);
      assert markers[0] == Marker && markers[1..] == Markers(MarkerCount(y));
    }
  }

  /** The k-th marker (counting from 0) is replaced by `Placeholder(from + k)`: the
      rewritten text is the pieces between markers interleaved with consecutive
      placeholder names. */
  lemma {:induction false} RewriteNumbersMarkers(s: string, from: nat)
    ensures Rewrite(s, from) == Interleave(Split(s), PlaceholdersFrom(from, MarkerCount(s)))
    decreases |s|
  {
    var i := IndexOf(s);
    if i != -1 {
      var y := s[i + 3..];
      RewriteNumbersMarkers(y, from + 1);
      assert PlaceholdersFrom(from, MarkerCount(s))[1..] == PlaceholdersFrom(from + 1, MarkerCount(y));
      assert Split(s)[1..] == Split(y);
    }
  }

  /** What `ParameterizedSql` computes, stated through the pieces of its input: the
      marker-free text is kept, and the markers are numbered 1, 2, ... left to right. */
  lemma ParameterizedSqlNumbering(sql0: string)
    ensures Rewrite(sql0, 1) == Interleave(Split(sql0), PlaceholdersFrom(1, MarkerCount(sql0)))
    ensures Interleave(Split(sql0), Markers(MarkerCount(sql0))) == sql0
  {
    RewriteNumbersMarkers(sql0, 1);
    SplitRejoins(sql0);
  }
}

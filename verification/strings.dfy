/** Searches over strings shared by the spec parser and the expression evaluator. */
module Strings {
  import opened Optional

  /** The characters that separate a directive's style spec from its value. */
  predicate IsWhitespace(c: char) {
    c == ' ' || c == '\t' || c == '\n' || c == '\r'
  }

  /** Position of the first occurrence of `c` in `s`, if any. */
  function IndexOf(s: string, c: char): (r: Option<nat>)
    ensures r.Some? ==> r.value < |s| && s[r.value] == c && c !in s[..r.value]
    ensures r.None? <==> c !in s
  {
    if |s| == 0 then None
    else if s[0] == c then Some(0)
    else match IndexOf(s[1..], c)
      case None => None
      case Some(i) => Some(i + 1)
  }

  /** A position holding `c` with no earlier `c` is the one IndexOf finds. */
  lemma IndexOfFirst(s: string, c: char, i: nat)
    requires i < |s| && s[i] == c && c !in s[..i]
    ensures IndexOf(s, c) == Some(i)
  {
  }

  /** Position of the first whitespace character of `s`, if any. */
  function IndexOfWhitespace(s: string): (r: Option<nat>)
    ensures r.Some? ==> r.value < |s| && IsWhitespace(s[r.value])
                        && forall k :: 0 <= k < r.value ==> !IsWhitespace(s[k])
    ensures r.None? <==> forall k :: 0 <= k < |s| ==> !IsWhitespace(s[k])
  {
    if |s| == 0 then None
    else if IsWhitespace(s[0]) then Some(0)
    else match IndexOfWhitespace(s[1..])
      case None => None
      case Some(i) => Some(i + 1)
  }

  /** A whitespace position with none before it is the one IndexOfWhitespace finds. */
  lemma IndexOfWhitespaceFirst(s: string, i: nat)
    requires i < |s| && IsWhitespace(s[i]) && forall k :: 0 <= k < i ==> !IsWhitespace(s[k])
    ensures IndexOfWhitespace(s) == Some(i)
  {
  }

  /** True when the two-character sequence `a b` starts at position `k` of `s`. */
  predicate PairAt(s: string, k: int, a: char, b: char) {
    0 <= k && k + 1 < |s| && s[k] == a && s[k + 1] == b
  }

  /** Position of the first occurrence of the two-character sequence `a b` in `s`, if any. */
  function IndexOfPair(s: string, a: char, b: char): (r: Option<nat>)
    ensures r.Some? ==> PairAt(s, r.value, a, b)
                        && forall k :: 0 <= k < r.value ==> !PairAt(s, k, a, b)
    ensures r.None? <==> forall k :: 0 <= k < |s| ==> !PairAt(s, k, a, b)
  {
    if |s| < 2 then None
    else if s[0] == a && s[1] == b then Some(0)
    else match IndexOfPair(s[1..], a, b)
      case None =>
        assert forall k :: 1 <= k < |s| ==> (PairAt(s, k, a, b) <==> PairAt(s[1..], k - 1, a, b));
        None
      case Some(i) =>
        assert forall k :: 1 <= k < |s| ==> (PairAt(s, k, a, b) <==> PairAt(s[1..], k - 1, a, b));
        Some(i + 1)
  }

  /** A position where `a b` starts, with no earlier one, is the one IndexOfPair finds. */
  lemma IndexOfPairFirst(s: string, a: char, b: char, i: nat)
    requires PairAt(s, i, a, b) && forall k :: 0 <= k < i ==> !PairAt(s, k, a, b)
    ensures IndexOfPair(s, a, b) == Some(i)
  {
  }

  /** Decimal digit test. */
  predicate IsDigit(c: char) {
    '0' <= c <= '9'
  }

  /** The value of a non-empty run of decimal digits; None for anything else. */
  function ParseDecimal(s: string): (r: Option<nat>)
    ensures r.Some? <==> |s| > 0 && forall k :: 0 <= k < |s| ==> IsDigit(s[k])
    decreases |s|
  {
    if |s| == 0 then None
    else if !IsDigit(s[|s| - 1]) then None
    else if |s| == 1 then Some(s[0] as int - '0' as int)
    else match ParseDecimal(s[..|s| - 1])
      case None => None
      case Some(n) => Some(n * 10 + (s[|s| - 1] as int - '0' as int))
  }

  /** The shortest decimal spelling of `n`. */
  function DecimalString(n: nat): (r: string)
    ensures |r| > 0 && forall k :: 0 <= k < |r| ==> IsDigit(r[k])
    ensures |r| > 1 ==> r[0] != '0'
  {
    if n < 10 then ['0' + n as char]
    else DecimalString(n / 10) + ['0' + (n % 10) as char]
  }

  /** Reading back the decimal spelling of a number gives the number. */
  lemma {:induction false} DecimalRoundTrip(n: nat)
    ensures ParseDecimal(DecimalString(n)) == Some(n)
  {
    if n >= 10 {
      var s := DecimalString(n);
      assert s[..|s| - 1] == DecimalString(n / 10);
      DecimalRoundTrip(n / 10);
    }
  }

  lemma Associative<T>(a: seq<T>, b: seq<T>, c: seq<T>)
    ensures a + b + c == a + (b + c) && |a + b| == |a| + |b|
  {
  }

  lemma ConsSplit<T>(a: seq<T>, b: seq<T>)
    requires |a| > 0
    ensures (a + b)[0] == a[0] && (a + b)[1..] == a[1..] + b
  {
  }

  lemma DropPrefix<T>(a: seq<T>, b: seq<T>)
    ensures (a + b)[..|a|] == a && (a + b)[|a|..] == b
  {
  }
}

/**
 Character classes and the whitespace trimming used by every line-oriented
 reader in the tool.  Whitespace is Python's `str.isspace`, which is also what
 the regular-expression classes `\s` / `\S` use on text; digits are the ASCII
 digits.
 */
module Text {
  import opened Wrappers

  /** Python's whitespace code points (`str.isspace`, regex `\s`). */
  predicate IsSpace(c: char) {
    || ('\t' <= c <= '\r')                  // \t \n \v \f \r
    || ('\U{001C}' <= c <= '\U{001F}')      // file/group/record/unit separators
    || c == ' '
    || c == '\U{0085}' || c == '\U{00A0}' || c == '\U{1680}'
    || ('\U{2000}' <= c <= '\U{200A}')
    || c == '\U{2028}' || c == '\U{2029}' || c == '\U{202F}' || c == '\U{205F}'
    || c == '\U{3000}'
  }

  predicate IsDigit(c: char) {
    '0' <= c <= '9'
  }

  /** The character classes the fixed line-shape patterns are built from. */
  datatype CharClass =
    | Whitespace      // \s
    | NonWhitespace   // \S
    | Digit           // \d
    | DigitOrDot      // [\d\.]
    | Blank           // the literal space of ` +`

  predicate In(k: CharClass, c: char) {
    match k
    case Whitespace => IsSpace(c)
    case NonWhitespace => !IsSpace(c)
    case Digit => IsDigit(c)
    case DigitOrDot => IsDigit(c) || c == '.'
    case Blank => c == ' '
  }

  /** Every character of `s` is in class `k` (`s` matches `k*`). */
  predicate All(s: string, k: CharClass) {
    forall i :: 0 <= i < |s| ==> In(k, s[i])
  }

  /** A non-empty run of class `k` (`s` matches `k+`). */
  predicate Run(s: string, k: CharClass) {
    |s| > 0 && All(s, k)
  }

  /** A whitespace-free, non-empty token, the text matched by `\S+`. */
  predicate IsWord(s: string) {
    Run(s, NonWhitespace)
  }

  /** Length of the longest prefix of `s` in class `k`: what a greedy `k+`
      (or `k*`) consumes. */
  function Span(s: string, k: CharClass): (n: nat)
    ensures n <= |s|
    ensures All(s[..n], k)
    ensures n < |s| ==> !In(k, s[n])
  {
    if |s| == 0 || !In(k, s[0]) then 0 else 1 + Span(s[1..], k)
  }

  /** The greedy span over `a + b` stops exactly at the seam when `a` is all
      of class `k` and `b` does not continue it. */
  lemma {:induction false} SpanSeam(a: string, b: string, k: CharClass)
    requires All(a, k)
    requires |b| == 0 || !In(k, b[0])
    ensures Span(a + b, k) == |a|
    decreases |a|
  {
    if |a| == 0 {
      assert a + b == b;
    } else {
      assert (a + b)[0] == a[0];
      assert (a + b)[1..] == a[1..] + b;
      SpanSeam(a[1..], b, k);
    }
  }

  predicate StartsWith(s: string, prefix: string) {
    |prefix| <= |s| && s[..|prefix|] == prefix
  }

  /** A greedy `k+` at the front of `s`: the non-empty run it consumes and the
      rest of the text, which does not continue the run. */
  function TakeRun(s: string, k: CharClass): (r: Option<(string, string)>)
    ensures r.Some? ==>
      && Run(r.value.0, k)
      && s == r.value.0 + r.value.1
      && (|r.value.1| == 0 || !In(k, r.value.1[0]))
  {
    var n := Span(s, k);
    if n == 0 then None
    else
      assert s == s[..n] + s[n..];
      Some((s[..n], s[n..]))
  }

  /** A greedy run is always read back whole. */
  lemma TakeRunSeam(run: string, rest: string, k: CharClass)
    requires Run(run, k)
    requires |rest| == 0 || !In(k, rest[0])
    ensures TakeRun(run + rest, k) == Some((run, rest))
  {
    SpanSeam(run, rest, k);
    assert (run + rest)[..|run|] == run;
    assert (run + rest)[|run|..] == rest;
  }

  /** A literal at the front of `s`: the text after it. */
  function Literal(s: string, lit: string): (r: Option<string>)
    ensures r.Some? <==> StartsWith(s, lit)
    ensures r.Some? ==> s == lit + r.value
  {
    if StartsWith(s, lit) then
      assert s == s[..|lit|] + s[|lit|..];
      Some(s[|lit|..])
    else
      None
  }

  lemma LiteralSeam(lit: string, rest: string)
    ensures Literal(lit + rest, lit) == Some(rest)
  {
    assert (lit + rest)[..|lit|] == lit;
    assert (lit + rest)[|lit|..] == rest;
  }

  /** `str.lstrip()`: drop the leading whitespace. */
  function LStrip(s: string): string {
    s[Span(s, Whitespace)..]
  }

  /** `str.rstrip()`: drop the trailing whitespace. */
  function RStrip(s: string): (r: string)
    ensures StartsWith(s, r) && All(s[|r|..], Whitespace)
    ensures |r| == 0 || !IsSpace(r[|r| - 1])
  {
    if |s| > 0 && IsSpace(s[|s| - 1]) then
      var r := RStrip(s[..|s| - 1]);
      assert s[|r|..] == s[|r|..|s| - 1] + [s[|s| - 1]];
      r
    else
      s
  }

  /** `str.strip()`: drop whitespace at both ends. */
  function Strip(s: string): string {
    LStrip(RStrip(s))
  }

  /** `strip()` removes whitespace padding and nothing else: the result is a
      slice of the input with only whitespace around it, and it neither starts
      nor ends with whitespace. */
  lemma StripShape(s: string)
    ensures var r := Strip(s);
      && (|r| == 0 || (!IsSpace(r[0]) && !IsSpace(r[|r| - 1])))
      && exists i, j ::
        && 0 <= i <= j <= |s| && r == s[i..j]
        && All(s[..i], Whitespace) && All(s[j..], Whitespace)
  {
    var t := RStrip(s);
    var i := Span(t, Whitespace);
    assert s[i..|t|] == Strip(s) && s[..i] == t[..i];
  }

  /** A string that neither starts nor ends with whitespace is its own strip. */
  lemma {:induction false} StripTrimmed(s: string)
    requires |s| == 0 || (!IsSpace(s[0]) && !IsSpace(s[|s| - 1]))
    ensures RStrip(s) == s
    ensures LStrip(s) == s
    ensures Strip(s) == s
  {
    SpanSeam([], s, Whitespace);
    assert [] + s == s;
  }

  /** Stripping discards exactly the whitespace padding around a trimmed core. */
  lemma {:induction false} StripPadded(pre: string, core: string, post: string)
    requires All(pre, Whitespace) && All(post, Whitespace)
    requires |core| > 0 && !IsSpace(core[0]) && !IsSpace(core[|core| - 1])
    ensures Strip(pre + core + post) == core
  {
    RStripPadded(pre + core, post);
    assert (pre + core)[|pre + core| - 1] == core[|core| - 1];
    SpanSeam(pre, core, Whitespace);
  }

  /** Whatever follows it, a word after leading whitespace starts the
      stripped line. */
  lemma StripStartsWith(pre: string, word: string, rest: string)
    requires All(pre, Whitespace)
    requires |word| > 0 && !IsSpace(word[0]) && !IsSpace(word[|word| - 1])
    ensures StartsWith(Strip(pre + word + rest), word)
  {
    var line := pre + word + rest;
    var r := RStrip(line);
    var e := |pre| + |word| - 1;
    assert line[e] == word[|word| - 1];
    assert |r| > e;
    assert r[|pre|] == line[|pre|] == word[0];
    assert r[..|pre|] == pre;
    SpanSeam(pre, r[|pre|..], Whitespace);
    assert r == pre + r[|pre|..];
    assert r[|pre|..][..|word|] == line[|pre|..|pre| + |word|] == word;
  }

  lemma {:induction false} RStripPadded(s: string, post: string)
    requires All(post, Whitespace)
    requires |s| == 0 || !IsSpace(s[|s| - 1])
    ensures RStrip(s + post) == s
    decreases |post|
  {
    if |post| == 0 {
      assert s + post == s;
    } else {
      var shorter := post[..|post| - 1];
      assert (s + post)[..|s + post| - 1] == s + shorter;
      RStripPadded(s, shorter);
    }
  }

  /** The value of a run of decimal digits, as Python's `int()` reads it
      (leading zeros allowed). */
  function DecimalValue(d: string): nat
    requires All(d, Digit)
  {
    if |d| == 0 then 0
    else 10 * DecimalValue(d[..|d| - 1]) + (d[|d| - 1] - '0') as nat
  }

  /** The decimal rendering of `n`, without leading zeros. */
  function Decimal(n: nat): (d: string)
    ensures Run(d, Digit)
    ensures |d| == 1 || d[0] != '0'
  {
    if n < 10 then [('0' as int + n) as char]
    else Decimal(n / 10) + [('0' as int + n % 10) as char]
  }

  /** `int()` inverts the decimal rendering. */
  lemma {:induction false} DecimalRoundTrip(n: nat)
    ensures DecimalValue(Decimal(n)) == n
  {
    var d := Decimal(n);
    if n >= 10 {
      assert d[..|d| - 1] == Decimal(n / 10);
      DecimalRoundTrip(n / 10);
    }
  }
}

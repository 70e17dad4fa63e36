/**
 The rule-file reader (`parse_output2host_ini`): every line is stripped,
 blank and comment lines are skipped, and a line of exactly three
 whitespace-separated fields `<pattern> <order> <hostname>`, the middle one
 decimal, becomes a rule.  Any other line is dropped without an error.
 */
module RuleLoader {
  import opened Wrappers
  import opened Text

  /** A naming rule: the `order`-th device whose name matches `pattern` is
      given the name `hostname`. */
  datatype Rule = Rule(pattern: string, order: nat, hostname: string)

  /** The parts of a line matched by `^(\S+)\s+(\d+)\s+(\S+)$`. */
  datatype RuleText = RuleText(pattern: string, gap1: string, digits: string, gap2: string, hostname: string)

  predicate WellFormedRuleText(t: RuleText) {
    && IsWord(t.pattern)
    && Run(t.gap1, Whitespace)
    && Run(t.digits, Digit)
    && Run(t.gap2, Whitespace)
    && IsWord(t.hostname)
  }

  function RuleLine(t: RuleText): string {
    t.pattern + (t.gap1 + (t.digits + (t.gap2 + t.hostname)))
  }

  /** The rule pattern, read greedily; each field ends where the next class
      begins, so the match is unique. */
  function MatchRule(line: string): (r: Option<RuleText>)
    ensures r.Some? ==> WellFormedRuleText(r.value) && RuleLine(r.value) == line
  {
    var (pattern, s1) :- TakeRun(line, NonWhitespace);
    var (gap1, s2) :- TakeRun(s1, Whitespace);
    var (digits, s3) :- TakeRun(s2, Digit);
    var (gap2, hostname) :- TakeRun(s3, Whitespace);
    if IsWord(hostname) then Some(RuleText(pattern, gap1, digits, gap2, hostname)) else None
  }

  /** Every line of the rule shape is recognised, with its own fields. */
  lemma MatchRuleRoundTrip(t: RuleText)
    requires WellFormedRuleText(t)
    ensures MatchRule(RuleLine(t)) == Some(t)
  {
    var s3 := t.gap2 + t.hostname;
    var s2 := t.digits + s3;
    var s1 := t.gap1 + s2;
    TakeRunSeam(t.pattern, s1, NonWhitespace);
    TakeRunSeam(t.gap1, s2, Whitespace);
    TakeRunSeam(t.digits, s3, Digit);
    TakeRunSeam(t.gap2, t.hostname, Whitespace);
  }

  /** A stripped line that starts with `#` or `;`. */
  predicate IsComment(s: string) {
    |s| > 0 && (s[0] == '#' || s[0] == ';')
  }

  /** The rule a rule line denotes: `int()` of the digit field. */
  function RuleOf(t: RuleText): Rule
    requires WellFormedRuleText(t)
  {
    Rule(t.pattern, DecimalValue(t.digits), t.hostname)
  }

  /** What one line of the rule file contributes. */
  function RuleOfLine(line: string): (r: Option<Rule>)
    ensures r.Some? ==> exists t ::
      && WellFormedRuleText(t) && RuleLine(t) == Strip(line)
      && !IsComment(t.pattern) && r.value == RuleOf(t)
  {
    var s := Strip(line);
    if |s| == 0 || IsComment(s) then None
    else
      var t :- MatchRule(s);
      assert s[0] == t.pattern[0];
      Some(RuleOf(t))
  }

  /** Conversely, a rule line, however it is padded with whitespace, yields
      its rule unless its pattern starts a comment. */
  lemma RuleOfPaddedLine(pre: string, t: RuleText, post: string)
    requires All(pre, Whitespace) && All(post, Whitespace)
    requires WellFormedRuleText(t) && !IsComment(t.pattern)
    ensures RuleOfLine(pre + RuleLine(t) + post) == Some(RuleOf(t))
  {
    var core := RuleLine(t);
    assert core[0] == t.pattern[0];
    var tail := t.gap2 + t.hostname;
    assert core == (t.pattern + (t.gap1 + t.digits)) + tail;
    assert tail[|tail| - 1] == t.hostname[|t.hostname| - 1];
    StripPadded(pre, core, post);
    MatchRuleRoundTrip(t);
  }

  /** The order field is read as the decimal number written there. */
  lemma OrderIsDecimal(pattern: string, n: nat, hostname: string)
    requires IsWord(pattern) && !IsComment(pattern) && IsWord(hostname)
    ensures RuleOfLine(pattern + " " + Decimal(n) + " " + hostname) == Some(Rule(pattern, n, hostname))
  {
    var t := RuleText(pattern, " ", Decimal(n), " ", hostname);
    assert pattern + " " + Decimal(n) + " " + hostname == RuleLine(t);
    assert [] + RuleLine(t) + [] == RuleLine(t);
    RuleOfPaddedLine([], t, []);
    DecimalRoundTrip(n);
  }

  /** A comment line contributes nothing, whatever follows the marker and
      however it is padded with whitespace, its line break included. */
  lemma CommentIgnored(pre: string, body: string, post: string)
    requires All(pre, Whitespace) && All(post, Whitespace)
    requires IsComment(body) && !IsSpace(body[|body| - 1])
    ensures RuleOfLine(pre + body + post) == None
  {
    StripPadded(pre, body, post);
  }

  /** `parse_output2host_ini` on the lines of the rule file. */
  function LoadRules(lines: seq<string>): (rules: seq<Rule>)
    ensures |rules| <= |lines|
  {
    if |lines| == 0 then []
    else
      var rest := LoadRules(lines[..|lines| - 1]);
      match RuleOfLine(lines[|lines| - 1])
      case Some(r) => rest + [r]
      case None => rest
  }

  /** Every rule comes from a line of the file. */
  lemma {:induction false} LoadRulesSound(lines: seq<string>, r: Rule)
    requires r in LoadRules(lines)
    ensures exists i :: 0 <= i < |lines| && RuleOfLine(lines[i]) == Some(r)
  {
    var init := lines[..|lines| - 1];
    var last := |lines| - 1;
    if r in LoadRules(init) {
      LoadRulesSound(init, r);
      var i :| 0 <= i < |init| && RuleOfLine(init[i]) == Some(r);
      assert lines[i] == init[i];
    } else {
      assert RuleOfLine(lines[last]) == Some(r);
    }
  }

  /** Every line that denotes a rule contributes it. */
  lemma {:induction false} LoadRulesComplete(lines: seq<string>, i: nat)
    requires i < |lines| && RuleOfLine(lines[i]).Some?
    ensures RuleOfLine(lines[i]).value in LoadRules(lines)
  {
    if i < |lines| - 1 {
      var init := lines[..|lines| - 1];
      assert init[i] == lines[i];
      LoadRulesComplete(init, i);
      LoadRulesGrow(lines);
    }
  }

  lemma LoadRulesGrow(lines: seq<string>)
    requires |lines| > 0
    ensures LoadRules(lines[..|lines| - 1]) <= LoadRules(lines)
  {
  }

  /** Rules keep file order: the rules of a file are the rules of its first
      part followed by the rules of the rest. */
  lemma {:induction false} LoadRulesAppend(a: seq<string>, b: seq<string>)
    ensures LoadRules(a + b) == LoadRules(a) + LoadRules(b)
    decreases |b|
  {
    if |b| == 0 {
      assert a + b == a;
    } else {
      var b' := b[..|b| - 1];
      assert (a + b)[..|a + b| - 1] == a + b';
      assert (a + b)[|a + b| - 1] == b[|b| - 1];
      LoadRulesAppend(a, b');
    }
  }
}

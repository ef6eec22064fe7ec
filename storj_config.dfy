/**
 * `io.storj.codeowners.Config`: the newer CODEOWNERS parser. Directives are
 * recognised by two regular expressions searched in the trailing comment, and
 * `ownersFor` unions the owners of every matching rule.
 */
module StorjConfig {
  import opened Wrappers
  import opened JavaStrings
  import opened CodeOwnersSyntax
  import Collect

  /** Reviewer count when the file has no directive. */
  const DefaultReviewerCount: int := 2

  datatype Config = Config(rules: seq<Rule>, reviewerCount: int, useGitHistory: bool)

  /** `\s` of `java.util.regex`: space, tab, newline, vertical tab, form feed, carriage return. */
  predicate IsRegexSpace(c: char)
  {
    c == ' ' || c == '\t' || c == '\n' || c == '\U{000B}' || c == '\U{000C}' || c == '\r'
  }

  /** The line terminators that `.` of `java.util.regex` does not match. */
  predicate IsLineTerminator(c: char)
  {
    c == '\n' || c == '\r' || c == '\U{0085}' || c == '\U{2028}' || c == '\U{2029}'
  }

  predicate AllSpaces(s: string)
  {
    forall i :: 0 <= i < |s| ==> IsRegexSpace(s[i])
  }

  /** Greedy `\s*`: what remains after the leading whitespace. */
  function SkipSpaces(s: string): (r: string)
    ensures |r| <= |s| && r == s[|s| - |r|..]
    ensures r == [] || !IsRegexSpace(r[0])
  {
    if |s| > 0 && IsRegexSpace(s[0]) then SkipSpaces(s[1..]) else s
  }

  /** What `SkipSpaces` skips is whitespace. */
  lemma {:induction false} SkippedAreSpaces(s: string)
    ensures AllSpaces(s[..|s| - |SkipSpaces(s)|])
  {
    if |s| > 0 && IsRegexSpace(s[0]) {
      SkippedAreSpaces(s[1..]);
      assert s[1..][..|s[1..]| - |SkipSpaces(s)|] == s[1..|s| - |SkipSpaces(s)|];
    }
  }

  /** Greedy `\d+` before anything else: the leading ASCII digits. */
  function LeadingDigits(s: string): (r: string)
    ensures |r| <= |s| && r == s[..|r|]
    ensures |r| == |s| || !IsDigit(s[|r|])
  {
    if |s| > 0 && IsDigit(s[0]) then
      var r := LeadingDigits(s[1..]);
      assert s[..|r| + 1] == [s[0]] + s[1..][..|r|];
      [s[0]] + r
    else []
  }

  /** What `LeadingDigits` keeps is digits. */
  lemma {:induction false} LeadingAreDigits(s: string)
    ensures AllDigits(LeadingDigits(s))
  {
    if |s| > 0 && IsDigit(s[0]) {
      LeadingAreDigits(s[1..]);
    }
  }

  const Namespace: string := "gerrit-codeowners"
  const CountKey: string := "reviewer-count:"
  const HistoryKey: string := "use-git-history: true"

  /** A comment `#<w1><ns><x><body>`, the shape every directive takes. */
  function DirectiveText(w1: string, ns: string, x: char, body: string): string
  {
    ['#'] + (w1 + (ns + ([x] + body)))
  }

  /** `#\s*<ns>.` at the start of `s`; gives the text after it. */
  function DirectiveAt(s: string, ns: string): Option<string>
  {
    if |s| == 0 || s[0] != '#' then None
    else
      var a := SkipSpaces(s[1..]);
      if !StartsWith(a, ns) || |a| == |ns| || IsLineTerminator(a[|ns|]) then None
      else Some(a[|ns| + 1..])
  }

  /** `#\s*<ns>.<key>\s*(\d+)` at the start of `s`; gives group 1, the digits. */
  function NumberAt(s: string, ns: string, key: string): Option<string>
  {
    match DirectiveAt(s, ns)
    case None => None
    case Some(rest) => NumberAfter(rest, key)
  }

  /** `<key>\s*(\d+)` at the start of `rest`; gives group 1. */
  function NumberAfter(rest: string, key: string): Option<string>
  {
    if !StartsWith(rest, key) then None
    else
      var digits := LeadingDigits(SkipSpaces(rest[|key|..]));
      if digits == [] then None else Some(digits)
  }

  /** `#\s*<ns>.<key>` at the start of `s`. */
  predicate FlagAt(s: string, ns: string, key: string)
  {
    match DirectiveAt(s, ns)
    case None => false
    case Some(rest) => StartsWith(rest, key)
  }

  /** `REVIEWER_COUNT_PATTERN` matched at the start of `s`. */
  function CountAt(s: string): Option<string>
  {
    NumberAt(s, Namespace, CountKey)
  }

  /** `USE_GIT_HISTORY` matched at the start of `s`. */
  predicate HistoryAt(s: string)
  {
    FlagAt(s, Namespace, HistoryKey)
  }

  /** `REVIEWER_COUNT_PATTERN.matcher(comment).find()`, giving group 1 of the first match. */
  function FindCount(comment: string): Option<string>
  {
    if CountAt(comment).Some? then CountAt(comment)
    else if |comment| == 0 then None
    else FindCount(comment[1..])
  }

  /** `USE_GIT_HISTORY.matcher(comment).find()`. */
  predicate FindHistory(comment: string)
  {
    HistoryAt(comment) || (|comment| > 0 && FindHistory(comment[1..]))
  }

  /** A match must start at a `#`, so a comment holding one `#` can match only at its start. */
  lemma {:induction false} FindOnlyAtStart(comment: string)
    requires |comment| > 0 && comment[0] == '#' && '#' !in comment[1..]
    ensures FindCount(comment) == CountAt(comment)
    ensures FindHistory(comment) == HistoryAt(comment)
  {
    NoMatchWithoutHash(comment[1..]);
  }

  lemma {:induction false} NoMatchWithoutHash(s: string)
    requires '#' !in s
    ensures FindCount(s) == None && !FindHistory(s)
  {
    if |s| > 0 {
      assert s[0] != '#';
      assert '#' !in s[1..] by {
        assert forall i :: 0 <= i < |s[1..]| ==> s[1..][i] == s[i + 1];
      }
      NoMatchWithoutHash(s[1..]);
    }
  }

  lemma {:induction false} SkipSpacesOver(w: string, t: string)
    requires AllSpaces(w)
    requires t == [] || !IsRegexSpace(t[0])
    ensures SkipSpaces(w + t) == t
    decreases |w|
  {
    if |w| > 0 {
      assert (w + t)[1..] == w[1..] + t;
      SkipSpacesOver(w[1..], t);
    } else {
      assert w + t == t;
    }
  }

  lemma {:induction false} LeadingDigitsOf(d: string, rest: string)
    requires AllDigits(d)
    requires rest == [] || !IsDigit(rest[0])
    ensures LeadingDigits(d + rest) == d
    decreases |d|
  {
    if |d| > 0 {
      assert (d + rest)[1..] == d[1..] + rest;
      LeadingDigitsOf(d[1..], rest);
      assert d == [d[0]] + d[1..];
    } else {
      assert d + rest == rest;
    }
  }

  /**
   * Every text of the form `#<spaces><ns><any><key><spaces><digits>...`
   * matches the number pattern, capturing exactly the digits.
   */
  lemma NumberMatches(ns: string, key: string, w1: string, x: char, w2: string, d: string, rest: string)
    requires AllSpaces(w1) && AllSpaces(w2) && !IsLineTerminator(x)
    requires |d| > 0 && AllDigits(d)
    requires rest == [] || !IsDigit(rest[0])
    requires |ns| > 0 && !IsRegexSpace(ns[0])
    ensures NumberAt(DirectiveText(w1, ns, x, key + (w2 + (d + rest))), ns, key) == Some(d)
  {
    var tail := key + (w2 + (d + rest));
    DirectiveMatches(ns, w1, x, tail);
    assert NumberAfter(tail, key) == Some(d) by {
      assert StartsWith(tail, key) && tail[|key|..] == w2 + (d + rest) by {
        assert tail[..|key|] == key;
      }
      assert SkipSpaces(w2 + (d + rest)) == d + rest by {
        SkipSpacesOver(w2, d + rest);
      }
      LeadingDigitsOf(d, rest);
    }
  }

  /** Every text `#<spaces><ns><any>...` starts a directive, and what follows is kept whole. */
  lemma DirectiveMatches(ns: string, w1: string, x: char, after: string)
    requires AllSpaces(w1) && !IsLineTerminator(x)
    requires |ns| > 0 && !IsRegexSpace(ns[0])
    ensures DirectiveAt(DirectiveText(w1, ns, x, after), ns) == Some(after)
  {
    var a := ns + ([x] + after);
    var s := DirectiveText(w1, ns, x, after);
    assert SkipSpaces(s[1..]) == a by {
      assert s[1..] == w1 + a;
      SkipSpacesOver(w1, a);
    }
    assert StartsWith(a, ns) && |a| > |ns| && a[|ns|] == x && a[|ns| + 1..] == after by {
      assert a[..|ns|] == ns;
      assert a[|ns| + 1..] == after;
    }
  }

  /** Conversely, whatever matches the number pattern has that shape. */
  lemma NumberShape(s: string, ns: string, key: string) returns (w1: string, x: char, w2: string, rest: string)
    requires NumberAt(s, ns, key).Some?
    ensures AllSpaces(w1) && AllSpaces(w2) && !IsLineTerminator(x)
    ensures |NumberAt(s, ns, key).value| > 0 && AllDigits(NumberAt(s, ns, key).value)
    ensures rest == [] || !IsDigit(rest[0])
    ensures s == DirectiveText(w1, ns, x, key + (w2 + (NumberAt(s, ns, key).value + rest)))
  {
    var after;
    w1, x, after := DirectiveShape(s, ns);
    w2, rest := NumberAfterShape(after, key);
  }

  lemma NumberAfterShape(after: string, key: string) returns (w2: string, rest: string)
    requires NumberAfter(after, key).Some?
    ensures AllSpaces(w2)
    ensures |NumberAfter(after, key).value| > 0 && AllDigits(NumberAfter(after, key).value)
    ensures rest == [] || !IsDigit(rest[0])
    ensures after == key + (w2 + (NumberAfter(after, key).value + rest))
  {
    var t := after[|key|..];
    KeyThenRest(after, key);
    var b := SkipSpaces(t);
    w2 := SpacesThenRest(t);
    var d := LeadingDigits(b);
    rest := DigitsThenRest(b);
    assert NumberAfter(after, key) == Some(d);
  }

  /** A text that starts with `key` is `key` followed by the rest. */
  lemma KeyThenRest(s: string, key: string)
    requires StartsWith(s, key)
    ensures s == key + s[|key|..]
  {
    assert s[..|key|] == key;
  }

  /** A text is the whitespace `SkipSpaces` skips followed by what it leaves. */
  lemma SpacesThenRest(t: string) returns (w: string)
    ensures AllSpaces(w) && t == w + SkipSpaces(t)
  {
    w := t[..|t| - |SkipSpaces(t)|];
    SkippedAreSpaces(t);
  }

  /** A text is its leading digits followed by the first non-digit and what comes after it. */
  lemma DigitsThenRest(b: string) returns (rest: string)
    ensures AllDigits(LeadingDigits(b)) && b == LeadingDigits(b) + rest
    ensures rest == [] || !IsDigit(rest[0])
  {
    var d := LeadingDigits(b);
    rest := b[|d|..];
    LeadingAreDigits(b);
  }

  lemma SliceAround(a: string, k: nat)
    requires k < |a|
    ensures a == a[..k] + ([a[k]] + a[k + 1..])
  {
    assert a[k..] == [a[k]] + a[k + 1..];
  }

  /** A directive prefix `#<spaces><ns><any>` taken apart. */
  lemma DirectiveShape(s: string, ns: string) returns (w1: string, x: char, after: string)
    requires DirectiveAt(s, ns).Some?
    ensures after == DirectiveAt(s, ns).value
    ensures AllSpaces(w1) && !IsLineTerminator(x)
    ensures s == DirectiveText(w1, ns, x, after)
  {
    var t := s[1..];
    assert s == ['#'] + t;
    var a := SkipSpaces(t);
    w1 := SpacesThenRest(t);
    x := a[|ns|];
    after := a[|ns| + 1..];
    assert a == ns + ([x] + after) by {
      SliceAround(a, |ns|);
    }
  }

  /** Every text `#<spaces><ns><any><key>...` matches the flag pattern. */
  lemma FlagMatches(ns: string, key: string, w1: string, x: char, rest: string)
    requires AllSpaces(w1) && !IsLineTerminator(x)
    requires |ns| > 0 && !IsRegexSpace(ns[0])
    ensures FlagAt(DirectiveText(w1, ns, x, key + rest), ns, key)
  {
    DirectiveMatches(ns, w1, x, key + rest);
    assert (key + rest)[..|key|] == key;
  }

  /** Conversely, whatever matches the flag pattern has that shape. */
  lemma FlagShape(s: string, ns: string, key: string) returns (w1: string, x: char, rest: string)
    requires FlagAt(s, ns, key)
    ensures AllSpaces(w1) && !IsLineTerminator(x)
    ensures s == DirectiveText(w1, ns, x, key + rest)
  {
    var after;
    w1, x, after := DirectiveShape(s, ns);
    rest := after[|key|..];
    KeyThenRest(after, key);
  }

  /**
   * What one line contributes: a reviewer count, the history flag, a rule.
   * The older format's `MjpitzConfig.LineEffect` is the same without the
   * history flag, and the count and rule lemmas of the two modules run in
   * parallel over their own line effects.
   */
  datatype LineEffect = LineEffect(count: Option<int>, history: bool, rule: Option<Rule>)

  /** The digits the reviewer-count directive captures in the line's comment, if any. */
  function CountDigits(line: string): Option<string>
  {
    if Comment(line).Some? then FindCount(Comment(line).value) else None
  }

  /** Whether the line's comment holds the git-history directive. */
  predicate HistoryFlag(line: string)
  {
    Comment(line).Some? && FindHistory(Comment(line).value)
  }

  /** The effect of one line, or the exception the line makes `parse` throw. */
  function ParseLine(line: string): Result<LineEffect, ParseError>
  {
    Combine(CountDigits(line), HistoryFlag(line), LineRule(Content(line)))
  }

  /** The count directive is read before the rule, so a bad number wins over a bad rule. */
  function Combine(digits: Option<string>, history: bool, rule: Result<Option<Rule>, ParseError>): Result<LineEffect, ParseError>
  {
    if digits.Some? && ParseInt(digits.value).None? then Failure(BadNumber)
    else
      var count := if digits.Some? then ParseInt(digits.value) else None;
      match rule
      case Failure(e) => Failure(e)
      case Success(r) => Success(LineEffect(count, history, r))
  }

  /** The effects of the lines in file order, or the exception of the first line that throws. */
  function EffectsOf(lines: seq<string>): Result<seq<LineEffect>, ParseError>
  {
    Collect.MapAll(ParseLine, lines)
  }


  /** The rules the effects carry, in order. */
  function RulesIn(es: seq<LineEffect>): seq<Rule>
  {
    if es == [] then []
    else
      var last := es[|es| - 1];
      RulesIn(es[..|es| - 1]) + (if last.rule.Some? then [last.rule.value] else [])
  }

  /** The reviewer count of the last effect that sets one, or the default. */
  function CountIn(es: seq<LineEffect>): int
  {
    if es == [] then DefaultReviewerCount
    else
      match es[|es| - 1].count
      case Some(c) => c
      case None => CountIn(es[..|es| - 1])
  }

  /** Whether some effect turned git history on. */
  predicate HistoryIn(es: seq<LineEffect>)
  {
    es != [] && (HistoryIn(es[..|es| - 1]) || es[|es| - 1].history)
  }

  /** The parser's running state: the rules so far and the two directive values. */
  datatype State = State(rules: seq<Rule>, count: int, history: bool)

  /** The state the effects leave. */
  function StateIn(es: seq<LineEffect>): State
  {
    State(RulesIn(es), CountIn(es), HistoryIn(es))
  }

  /** One line's effect applied to the running state. */
  function Apply(st: State, e: LineEffect): State
  {
    State(st.rules + (if e.rule.Some? then [e.rule.value] else []),
          if e.count.Some? then e.count.value else st.count,
          st.history || e.history)
  }

  /** One more effect is applied to the state of the ones before it. */
  lemma StateStep(es: seq<LineEffect>, e: LineEffect)
    ensures StateIn(es + [e]) == Apply(StateIn(es), e)
  {
    assert (es + [e])[..|es|] == es;
  }

  /** The config `parse` returns for the effects of a file that does not throw. */
  function ConfigOf(es: seq<LineEffect>): Config
  {
    Config(RulesIn(es), CountIn(es), HistoryIn(es))
  }

  /**
   * The first half of the `forEach` lambda of `Config.parse`: the two
   * directive matchers run on the trailing comment, which is then cut off.
   */
  method ReadComment(line: string) returns (digits: Option<string>, history: bool, text: string)
    ensures digits == CountDigits(line) && history == HistoryFlag(line) && text == Content(line)
  {
    digits, history, text := None, false, line;
    var commentStart := CommentStart(line);
    if commentStart.Some? {
      var comment := line[commentStart.value..];
      assert Comment(line) == Some(comment);
      digits := FindCount(comment);
      history := FindHistory(comment);
      text := line[..commentStart.value];
    }
  }

  /** The whole lambda: one line applied to the running state, or the exception it throws. */
  method ParseOne(line: string, st: State) returns (r: Result<State, ParseError>)
    ensures r.Success? <==> ParseLine(line).Success?
    ensures r.Failure? ==> r.error == ParseLine(line).error
    ensures r.Success? ==> r.value == Apply(st, ParseLine(line).value)
  {
    var assigneeNo, useGitHistory := st.count, st.history;
    var digits, history, text := ReadComment(line);
    if digits.Some? {
      var v := ParseInt(digits.value);
      if v.None? {
        return Failure(BadNumber);
      }
      assigneeNo := v.value;
    }
    if history {
      useGitHistory := true;
    }
    var rule := ReadRule(text);
    if rule.Failure? {
      return Failure(rule.error);
    }
    var rules := st.rules + (if rule.value.Some? then [rule.value.value] else []);
    return Success(State(rules, assigneeNo, useGitHistory));
  }

  /**
   * `Config.parse`: one pass over the lines that either throws at the first
   * bad line or collects the rules and the two directives.
   */
  method Parse(lines: seq<string>) returns (r: Result<Config, ParseError>)
    ensures EffectsOf(lines).Failure? ==> r == Failure(EffectsOf(lines).error)
    ensures EffectsOf(lines).Success? ==> r == Success(ConfigOf(EffectsOf(lines).value))
  {
    var st := State([], DefaultReviewerCount, false);
    for n := 0 to |lines|
      invariant EffectsOf(lines[..n]).Success?
      invariant st == StateIn(EffectsOf(lines[..n]).value)
    {
      assert lines[..n + 1][..n] == lines[..n];
      var next := ParseOne(lines[n], st);
      if next.Failure? {
        Collect.FirstFailureSticks(ParseLine, lines, n + 1);
        return Failure(next.error);
      }
      StateStep(EffectsOf(lines[..n]).value, ParseLine(lines[n]).value);
      st := next.value;
    }
    assert lines[..|lines|] == lines;
    return Success(Config(st.rules, st.count, st.history));
  }

  /** A rule set's owners for a path: the union over every rule whose pattern matches. */
  method OwnersFor(config: Config, matches: (string, string) -> bool, path: string) returns (owners: set<string>)
    ensures forall o :: o in owners <==>
      exists i :: 0 <= i < |config.rules| && matches(config.rules[i].pattern, path) && o in config.rules[i].owners
  {
    owners := {};
    for i := 0 to |config.rules|
      invariant forall o :: o in owners <==>
        exists j :: 0 <= j < i && matches(config.rules[j].pattern, path) && o in config.rules[j].owners
    {
      var rule := config.rules[i];
      if matches(rule.pattern, path) {
        owners := owners + rule.owners;
      }
    }
  }

  /** `matcher.find()` on a comment can succeed only at the comment's own `#`. */
  lemma DirectivesStartAtTheHash(line: string)
    ensures CountDigits(line) == (if Comment(line).Some? then CountAt(Comment(line).value) else None)
    ensures HistoryFlag(line) == (Comment(line).Some? && HistoryAt(Comment(line).value))
  {
    if Comment(line).Some? {
      FindOnlyAtStart(Comment(line).value);
    }
  }

  /** Without a count directive anywhere, the reviewer count is two. */
  lemma {:induction false} CountDefault(es: seq<LineEffect>)
    requires forall i :: 0 <= i < |es| ==> es[i].count.None?
    ensures CountIn(es) == DefaultReviewerCount
  {
    if es != [] {
      CountDefault(es[..|es| - 1]);
    }
  }

  /** The last count directive wins. */
  lemma {:induction false} CountLastWins(es: seq<LineEffect>, i: nat)
    requires i < |es| && es[i].count.Some?
    requires forall j :: i < j < |es| ==> es[j].count.None?
    ensures CountIn(es) == es[i].count.value
  {
    if i < |es| - 1 {
      CountLastWins(es[..|es| - 1], i);
    }
  }

  /** Git history is on exactly when some line turned it on: no later line turns it off. */
  lemma {:induction false} HistoryAnyLine(es: seq<LineEffect>)
    ensures HistoryIn(es) <==> exists i :: 0 <= i < |es| && es[i].history
  {
    if es != [] {
      var init := es[..|es| - 1];
      HistoryAnyLine(init);
      if HistoryIn(init) {
        var i :| 0 <= i < |init| && init[i].history;
        assert es[i] == init[i];
      }
      if i :| 0 <= i < |es| && es[i].history {
        if i < |init| {
          assert init[i] == es[i];
        }
      }
    }
  }

  /** Rules keep the file's order: the rules of two pieces of a file are concatenated. */
  lemma {:induction false} RulesInFileOrder(a: seq<LineEffect>, b: seq<LineEffect>)
    ensures RulesIn(a + b) == RulesIn(a) + RulesIn(b)
    decreases |b|
  {
    if b == [] {
      assert a + b == a;
    } else {
      var init := b[..|b| - 1];
      assert (a + b)[..|a + b| - 1] == a + init;
      assert (a + b)[|a + b| - 1] == b[|b| - 1];
      RulesInFileOrder(a, init);
    }
  }

  /** One rule per effect that carries one. */
  lemma {:induction false} OneRulePerRuleLine(es: seq<LineEffect>)
    ensures |RulesIn(es)| == |set i | 0 <= i < |es| && es[i].rule.Some?|
  {
    if es != [] {
      var init := es[..|es| - 1];
      OneRulePerRuleLine(init);
      var last := |es| - 1;
      assert (set i | 0 <= i < |es| && es[i].rule.Some?)
        == (set i | 0 <= i < |init| && init[i].rule.Some?) + (if es[last].rule.Some? then {last} else {});
    }
  }

  /** A line yields a rule exactly when text is left once its comment is cut off. */
  lemma RuleIffText(line: string)
    requires ParseLine(line).Success?
    ensures ParseLine(line).value.rule.Some? <==> Content(line) != ""
  {
  }

  /** When a file parses, its effects are the lines' own effects, one per line, in file order. */
  lemma EffectsIndex(lines: seq<string>)
    ensures EffectsOf(lines).Success? ==>
      |EffectsOf(lines).value| == |lines| &&
      forall i :: 0 <= i < |lines| ==> ParseLine(lines[i]).Success? && EffectsOf(lines).value[i] == ParseLine(lines[i]).value
  {
    Collect.MapAllLength(ParseLine, lines);
    if EffectsOf(lines).Success? {
      forall i | 0 <= i < |lines|
        ensures ParseLine(lines[i]).Success? && EffectsOf(lines).value[i] == ParseLine(lines[i]).value
      {
        Collect.MapAllAt(ParseLine, lines, i);
      }
    }
  }

  /** The parts of a line's effect: the number its count directive reads, its history flag, its rule. */
  lemma LineEffectParts(line: string)
    requires ParseLine(line).Success?
    ensures CountDigits(line).Some? ==> ParseInt(CountDigits(line).value).Some?
    ensures ParseLine(line).value.count == if CountDigits(line).Some? then ParseInt(CountDigits(line).value) else None
    ensures ParseLine(line).value.history == HistoryFlag(line)
    ensures LineRule(Content(line)).Success? && ParseLine(line).value.rule == LineRule(Content(line)).value
  {
  }

  /** A file without a count directive gets two reviewers. */
  lemma FileCountDefault(lines: seq<string>)
    requires EffectsOf(lines).Success?
    requires forall i :: 0 <= i < |lines| ==> CountDigits(lines[i]).None?
    ensures ConfigOf(EffectsOf(lines).value).reviewerCount == DefaultReviewerCount
  {
    Collect.MapAllLength(ParseLine, lines);
    var es := EffectsOf(lines).value;
    forall i | 0 <= i < |es| ensures es[i].count.None? {
      Collect.MapAllAt(ParseLine, lines, i);
      LineEffectParts(lines[i]);
    }
    CountDefault(es);
  }

  /** The last line of the file with a count directive sets the reviewer count. */
  lemma FileCountLastWins(lines: seq<string>, i: nat)
    requires EffectsOf(lines).Success?
    requires i < |lines| && CountDigits(lines[i]).Some?
    requires forall j :: i < j < |lines| ==> CountDigits(lines[j]).None?
    ensures ParseInt(CountDigits(lines[i]).value).Some?
    ensures ConfigOf(EffectsOf(lines).value).reviewerCount == ParseInt(CountDigits(lines[i]).value).value
  {
    var es := EffectsOf(lines).value;
    Collect.MapAllAt(ParseLine, lines, i);
    LineEffectParts(lines[i]);
    assert es[i].count == ParseInt(CountDigits(lines[i]).value);
    forall j | i < j < |es| ensures es[j].count.None? {
      Collect.MapAllAt(ParseLine, lines, j);
      LineEffectParts(lines[j]);
    }
    CountLastWins(es, i);
  }

  /** Git history is on exactly when some line of the file turns it on. */
  lemma FileHistory(lines: seq<string>)
    requires EffectsOf(lines).Success?
    ensures ConfigOf(EffectsOf(lines).value).useGitHistory <==> exists i :: 0 <= i < |lines| && HistoryFlag(lines[i])
  {
    Collect.MapAllLength(ParseLine, lines);
    var es := EffectsOf(lines).value;
    forall i | 0 <= i < |es| ensures es[i].history == HistoryFlag(lines[i]) {
      Collect.MapAllAt(ParseLine, lines, i);
      LineEffectParts(lines[i]);
    }
    HistoryAnyLine(es);
    assert ConfigOf(es).useGitHistory == HistoryIn(es);
  }

  /** The rules of a file are the rules of its first part followed by those of the rest. */
  lemma FileRulesInOrder(a: seq<string>, b: seq<string>)
    requires EffectsOf(a + b).Success?
    ensures EffectsOf(a).Success? && EffectsOf(b).Success?
    ensures ConfigOf(EffectsOf(a + b).value).rules == ConfigOf(EffectsOf(a).value).rules + ConfigOf(EffectsOf(b).value).rules
  {
    Collect.MapAllSplit(ParseLine, a, b);
    RulesInFileOrder(EffectsOf(a).value, EffectsOf(b).value);
  }

  /** A one-line file has the line's rule when text is left once the comment is cut off, and none otherwise. */
  lemma FileOneLine(line: string)
    requires EffectsOf([line]).Success?
    ensures LineRule(Content(line)).Success?
    ensures ConfigOf(EffectsOf([line]).value).rules ==
      if Content(line) == "" then [] else [RuleOf(Content(line)).value]
  {
    Collect.MapAllAt(ParseLine, [line], 0);
    var es := EffectsOf([line]).value;
    assert [line][0] == line;
    LineEffectParts(line);
    assert es[..0] == [];
    assert RulesIn(es) == if es[0].rule.Some? then [es[0].rule.value] else [];
  }

  /** A file has one rule per line that has text before its comment. */
  lemma FileOneRulePerLine(lines: seq<string>)
    requires EffectsOf(lines).Success?
    ensures |ConfigOf(EffectsOf(lines).value).rules| == |set i | 0 <= i < |lines| && Content(lines[i]) != ""|
  {
    Collect.MapAllLength(ParseLine, lines);
    var es := EffectsOf(lines).value;
    OneRulePerRuleLine(es);
    forall i | 0 <= i < |lines|
      ensures es[i].rule.Some? <==> Content(lines[i]) != ""
    {
      Collect.MapAllAt(ParseLine, lines, i);
      RuleIffText(lines[i]);
    }
    assert (set i | 0 <= i < |es| && es[i].rule.Some?) == (set i | 0 <= i < |lines| && Content(lines[i]) != "");
  }

  /** The first example of the pattern's test, `# gerrit-codeowners.reviewer-count: 3`. */
  lemma CountPatternSpaced(comment: string)
    requires comment == "# " + Namespace + "." + CountKey + " 3"
    ensures FindCount(comment) == Some("3")
  {
    assert comment == DirectiveText(" ", Namespace, '.', CountKey + (" " + ("3" + "")));
    NumberMatches(Namespace, CountKey, " ", '.', " ", "3", "");
  }

  /** The second example, `#gerrit-codeowners.reviewer-count:55`. */
  lemma CountPatternTight(comment: string)
    requires comment == "#" + Namespace + "." + CountKey + "55"
    ensures FindCount(comment) == Some("55")
  {
    assert comment == DirectiveText("", Namespace, '.', CountKey + ("" + ("55" + "")));
    NumberMatches(Namespace, CountKey, "", '.', "", "55", "");
  }

  /** The third example, `#gerrit-codeownersxxx: 5`: no key after the namespace, no match. */
  lemma CountPatternWrongKey(comment: string)
    requires comment == "#" + Namespace + "xxx: 5"
    ensures FindCount(comment) == None
  {
    assert comment == DirectiveText("", Namespace, 'x', "xx: 5");
    DirectiveMatches(Namespace, "", 'x', "xx: 5");
    assert !StartsWith("xx: 5", CountKey);
    assert comment[1..] == Namespace + "xxx: 5";
    NoHashAfterWrongKey();
    NoMatchWithoutHash(comment[1..]);
  }

  lemma NoHashAfterWrongKey()
    ensures '#' !in Namespace + "xxx: 5"
  {
    var t := Namespace + "xxx: 5";
    forall i | 0 <= i < |t| ensures t[i] != '#' {
    }
  }
}

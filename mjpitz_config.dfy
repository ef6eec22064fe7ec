/**
 * `com.mjpitz.codeowners.Config`: the older CODEOWNERS parser. The reviewer
 * count is read from a comment that starts with a fixed prefix, and
 * `ownersFor` keeps the owners of the last matching rule only.
 */
module MjpitzConfig {
  import opened Wrappers
  import opened JavaStrings
  import opened CodeOwnersSyntax
  import Collect

  /** Reviewer count when the file has no directive. */
  const DefaultReviewerCount: int := 2

  /** The only form of the reviewer-count directive this parser knows. */
  const CountPrefix: string := "#gerrit-codeowners.reviewer-count:"

  datatype Config = Config(rules: seq<Rule>, reviewerCount: int)

  /**
   * The reviewer count a comment sets: nothing without the prefix; otherwise
   * the second field of `comment.split(" ")`, read by `Integer.parseInt`.
   */
  function CommentCount(comment: string): Result<Option<int>, ParseError>
  {
    if !StartsWith(comment, CountPrefix) then Success(None)
    else
      var fields := JavaSplit(comment, ' ');
      if |fields| < 2 then Failure(MissingField)
      else
        match ParseInt(fields[1])
        case None => Failure(BadNumber)
        case Some(n) => Success(Some(n))
  }

  /** The reviewer count set by the line's trailing comment, if any. */
  function LineCount(line: string): Result<Option<int>, ParseError>
  {
    if Comment(line).Some? then CommentCount(Comment(line).value) else Success(None)
  }

  /**
   * What one line contributes: a reviewer count and a rule. This is
   * `StorjConfig.LineEffect` without the history flag; the count and rule
   * lemmas below run in parallel with that module's.
   */
  datatype LineEffect = LineEffect(count: Option<int>, rule: Option<Rule>)

  /** The effect of one line, or the exception the line makes `parse` throw. */
  function ParseLine(line: string): Result<LineEffect, ParseError>
  {
    Combine(LineCount(line), LineRule(Content(line)))
  }

  /** The comment is read before the rule, so its exception wins over the rule's. */
  function Combine(count: Result<Option<int>, ParseError>, rule: Result<Option<Rule>, ParseError>): Result<LineEffect, ParseError>
  {
    match count
    case Failure(e) => Failure(e)
    case Success(c) =>
      match rule
      case Failure(e) => Failure(e)
      case Success(r) => Success(LineEffect(c, r))
  }

  /** The effects of the lines in file order, or the exception of the first line that throws. */
  function EffectsOf(lines: seq<string>): Result<seq<LineEffect>, ParseError>
  {
    Collect.MapAll(ParseLine, lines)
  }


  /** The rules the effects carry, in order. */
  function RulesIn(es: seq<LineEffect>): seq<Rule>
  {
    if es == [] then []
    else
      var last := es[|es| - 1];
      RulesIn(es[..|es| - 1]) + (if last.rule.Some? then [last.rule.value] else [])
  }

  /** The reviewer count of the last effect that sets one, or the default. */
  function CountIn(es: seq<LineEffect>): int
  {
    if es == [] then DefaultReviewerCount
    else
      match es[|es| - 1].count
      case Some(c) => c
      case None => CountIn(es[..|es| - 1])
  }

  /** The config `parse` returns for the effects of a file that does not throw. */
  function ConfigOf(es: seq<LineEffect>): Config
  {
    Config(RulesIn(es), CountIn(es))
  }

  /** One line's effect applied to the running config. */
  function Apply(config: Config, e: LineEffect): Config
  {
    Config(config.rules + (if e.rule.Some? then [e.rule.value] else []),
           if e.count.Some? then e.count.value else config.reviewerCount)
  }

  /** One more effect is applied to the config of the ones before it. */
  lemma ConfigStep(es: seq<LineEffect>, e: LineEffect)
    ensures ConfigOf(es + [e]) == Apply(ConfigOf(es), e)
  {
    assert (es + [e])[..|es|] == es;
  }

  /** The first half of the `forEach` lambda: the directive read from the trailing comment, which is then cut off. */
  method ReadComment(line: string) returns (count: Result<Option<int>, ParseError>, text: string)
    ensures count == LineCount(line)
    ensures count.Success? ==> text == Content(line)
  {
    count, text := Success(None), line;
    var commentStart := CommentStart(line);
    if commentStart.Some? {
      var comment := line[commentStart.value..];
      assert Comment(line) == Some(comment);
      if StartsWith(comment, CountPrefix) {
        var fields := JavaSplit(comment, ' ');
        if |fields| < 2 {
          return Failure(MissingField), text;
        }
        var v := ParseInt(fields[1]);
        if v.None? {
          return Failure(BadNumber), text;
        }
        count := Success(v);
      }
      text := line[..commentStart.value];
    }
  }

  /** The whole lambda: one line applied to the running config, or the exception it throws. */
  method ParseOne(line: string, config: Config) returns (r: Result<Config, ParseError>)
    ensures r.Success? <==> ParseLine(line).Success?
    ensures r.Failure? ==> r.error == ParseLine(line).error
    ensures r.Success? ==> r.value == Apply(config, ParseLine(line).value)
  {
    var count, text := ReadComment(line);
    if count.Failure? {
      return Failure(count.error);
    }
    var assigneeNo := if count.value.Some? then count.value.value else config.reviewerCount;
    var rule := ReadRule(text);
    if rule.Failure? {
      return Failure(rule.error);
    }
    var rules := config.rules + (if rule.value.Some? then [rule.value.value] else []);
    return Success(Config(rules, assigneeNo));
  }

  /**
   * `Config.parse`: one pass over the lines that either throws at the first
   * bad line or collects the rules and the reviewer count.
   */
  method Parse(lines: seq<string>) returns (r: Result<Config, ParseError>)
    ensures EffectsOf(lines).Failure? ==> r == Failure(EffectsOf(lines).error)
    ensures EffectsOf(lines).Success? ==> r == Success(ConfigOf(EffectsOf(lines).value))
  {
    var config := Config([], DefaultReviewerCount);
    for n := 0 to |lines|
      invariant EffectsOf(lines[..n]).Success?
      invariant config == ConfigOf(EffectsOf(lines[..n]).value)
    {
      assert lines[..n + 1][..n] == lines[..n];
      var next := ParseOne(lines[n], config);
      if next.Failure? {
        Collect.FirstFailureSticks(ParseLine, lines, n + 1);
        return Failure(next.error);
      }
      ConfigStep(EffectsOf(lines[..n]).value, ParseLine(lines[n]).value);
      config := next.value;
    }
    assert lines[..|lines|] == lines;
    return Success(config);
  }

  /** The owners of the last rule whose pattern matches `path`, found by looking from the end. */
  function LastOwners(rules: seq<Rule>, matches: (string, string) -> bool, path: string): set<string>
    decreases |rules|
  {
    if rules == [] then {}
    else if matches(rules[|rules| - 1].pattern, path) then rules[|rules| - 1].owners
    else LastOwners(rules[..|rules| - 1], matches, path)
  }

  /** `LastOwners` is the owner set of the last matching rule. */
  lemma {:induction false} LastOwnersMatch(rules: seq<Rule>, matches: (string, string) -> bool, path: string, k: int)
    requires 0 <= k < |rules| && matches(rules[k].pattern, path)
    requires forall j :: k < j < |rules| ==> !matches(rules[j].pattern, path)
    ensures LastOwners(rules, matches, path) == rules[k].owners
    decreases |rules|
  {
    if k < |rules| - 1 {
      LastOwnersMatch(rules[..|rules| - 1], matches, path, k);
    }
  }

  /** With no matching rule there are no owners. */
  lemma {:induction false} LastOwnersNone(rules: seq<Rule>, matches: (string, string) -> bool, path: string)
    requires forall j :: 0 <= j < |rules| ==> !matches(rules[j].pattern, path)
    ensures LastOwners(rules, matches, path) == {}
    decreases |rules|
  {
    if rules != [] {
      LastOwnersNone(rules[..|rules| - 1], matches, path);
    }
  }

  /** A rule set's owners for a path: those of the LAST rule whose pattern matches, or none. */
  method OwnersFor(config: Config, matches: (string, string) -> bool, path: string) returns (owners: set<string>)
    ensures (forall i :: 0 <= i < |config.rules| ==> !matches(config.rules[i].pattern, path)) ==> owners == {}
    ensures forall i :: 0 <= i < |config.rules| && matches(config.rules[i].pattern, path) &&
                        (forall j :: i < j < |config.rules| ==> !matches(config.rules[j].pattern, path))
                        ==> owners == config.rules[i].owners
    ensures owners == LastOwners(config.rules, matches, path)
  {
    owners := {};
    for i := 0 to |config.rules|
      invariant owners == LastOwners(config.rules[..i], matches, path)
    {
      var rule := config.rules[i];
      assert config.rules[..i + 1][..i] == config.rules[..i];
      if matches(rule.pattern, path) {
        owners := rule.owners;
      }
    }
    assert config.rules[..|config.rules|] == config.rules;
    forall i | 0 <= i < |config.rules| && matches(config.rules[i].pattern, path) &&
               (forall j :: i < j < |config.rules| ==> !matches(config.rules[j].pattern, path))
      ensures owners == config.rules[i].owners
    {
      LastOwnersMatch(config.rules, matches, path, i);
    }
    if !exists i :: 0 <= i < |config.rules| && matches(config.rules[i].pattern, path) {
      LastOwnersNone(config.rules, matches, path);
    }
  }

  lemma NoSpaceInPrefix()
    ensures ' ' !in CountPrefix && |CountPrefix| > 0
  {
    forall i | 0 <= i < |CountPrefix| ensures CountPrefix[i] != ' ' {
    }
  }

  /** `#gerrit-codeowners.reviewer-count: <word>` sets the count to the word read as an int. */
  lemma CountAfterOneSpace(w: string)
    requires |w| > 0 && ' ' !in w
    ensures CommentCount(CountPrefix + " " + w) ==
      (if ParseInt(w).Some? then Success(Some(ParseInt(w).value)) else Failure(BadNumber))
  {
    var comment := CountPrefix + " " + w;
    NoSpaceInPrefix();
    assert StartsWith(comment, CountPrefix) by {
      assert comment[..|CountPrefix|] == CountPrefix;
    }
    assert ' ' in comment by {
      assert comment[|CountPrefix|] == ' ';
    }
    assert Split(comment, ' ') == [CountPrefix, w] by {
      SplitAtFirst(CountPrefix, ' ', w);
      SplitNoSeparator(w, ' ');
    }
    assert JavaSplit(comment, ' ') == [CountPrefix, w];
  }

  /** Without a space after the colon there is no second field: `split(" ")[1]` throws. */
  lemma CountWithoutSpaceThrows(w: string)
    requires ' ' !in w
    ensures CommentCount(CountPrefix + w) == Failure(MissingField)
  {
    var comment := CountPrefix + w;
    NoSpaceInPrefix();
    assert StartsWith(comment, CountPrefix) by {
      assert comment[..|CountPrefix|] == CountPrefix;
    }
    assert ' ' !in comment;
  }

  /** A space after the `#`, which the newer parser accepts, makes this parser ignore the directive. */
  lemma SpaceAfterHashIgnored(comment: string)
    requires |comment| >= 2 && comment[1] == ' '
    ensures CommentCount(comment) == Success(None)
  {
    assert CountPrefix[1] == 'g';
  }

  /** The last matching rule's owners are among the owners the union of all matching rules gives. */
  lemma LastMatchWithinUnion(rules: seq<Rule>, matches: (string, string) -> bool, path: string,
                             last: set<string>, union: set<string>)
    requires forall o :: o in union <==> exists i :: 0 <= i < |rules| && matches(rules[i].pattern, path) && o in rules[i].owners
    requires (forall i :: 0 <= i < |rules| ==> !matches(rules[i].pattern, path)) ==> last == {}
    requires forall i :: 0 <= i < |rules| && matches(rules[i].pattern, path) &&
                         (forall j :: i < j < |rules| ==> !matches(rules[j].pattern, path))
                         ==> last == rules[i].owners
    ensures last <= union
  {
    if exists i :: 0 <= i < |rules| && matches(rules[i].pattern, path) {
      var k := LastMatch(rules, matches, path);
      assert last == rules[k].owners;
    }
  }

  /** The index of the last matching rule, when one matches. */
  lemma {:induction false} LastMatch(rules: seq<Rule>, matches: (string, string) -> bool, path: string) returns (k: nat)
    requires exists i :: 0 <= i < |rules| && matches(rules[i].pattern, path)
    ensures k < |rules| && matches(rules[k].pattern, path)
    ensures forall j :: k < j < |rules| ==> !matches(rules[j].pattern, path)
  {
    var n := |rules| - 1;
    if matches(rules[n].pattern, path) {
      k := n;
    } else {
      var i :| 0 <= i < |rules| && matches(rules[i].pattern, path);
      assert rules[..n][i] == rules[i];
      k := LastMatch(rules[..n], matches, path);
      assert rules[..n][k] == rules[k];
      assert forall j :: k < j < n ==> rules[..n][j] == rules[j];
    }
  }

  /** Without a count directive anywhere, the reviewer count is two. */
  lemma {:induction false} CountDefault(es: seq<LineEffect>)
    requires forall i :: 0 <= i < |es| ==> es[i].count.None?
    ensures CountIn(es) == DefaultReviewerCount
  {
    if es != [] {
      CountDefault(es[..|es| - 1]);
    }
  }

  /** The last count directive wins. */
  lemma {:induction false} CountLastWins(es: seq<LineEffect>, i: nat)
    requires i < |es| && es[i].count.Some?
    requires forall j :: i < j < |es| ==> es[j].count.None?
    ensures CountIn(es) == es[i].count.value
  {
    if i < |es| - 1 {
      CountLastWins(es[..|es| - 1], i);
    }
  }

  /** Rules keep the file's order: the rules of two pieces of a file are concatenated. */
  lemma {:induction false} RulesInFileOrder(a: seq<LineEffect>, b: seq<LineEffect>)
    ensures RulesIn(a + b) == RulesIn(a) + RulesIn(b)
    decreases |b|
  {
    if b == [] {
      assert a + b == a;
    } else {
      var init := b[..|b| - 1];
      assert (a + b)[..|a + b| - 1] == a + init;
      assert (a + b)[|a + b| - 1] == b[|b| - 1];
      RulesInFileOrder(a, init);
    }
  }

  /** One rule per effect that carries one. */
  lemma {:induction false} OneRulePerRuleLine(es: seq<LineEffect>)
    ensures |RulesIn(es)| == |set i | 0 <= i < |es| && es[i].rule.Some?|
  {
    if es != [] {
      var init := es[..|es| - 1];
      OneRulePerRuleLine(init);
      var last := |es| - 1;
      assert (set i | 0 <= i < |es| && es[i].rule.Some?)
        == (set i | 0 <= i < |init| && init[i].rule.Some?) + (if es[last].rule.Some? then {last} else {});
    }
  }

  /** The parts of a line's effect: the count its comment sets and its rule. */
  lemma LineEffectParts(line: string)
    requires ParseLine(line).Success?
    ensures LineCount(line).Success? && ParseLine(line).value.count == LineCount(line).value
    ensures LineRule(Content(line)).Success? && ParseLine(line).value.rule == LineRule(Content(line)).value
  {
  }

  /** When a file parses, its effects are the lines' own effects, one per line, in file order. */
  lemma EffectsIndex(lines: seq<string>)
    ensures EffectsOf(lines).Success? ==>
      |EffectsOf(lines).value| == |lines| &&
      forall i :: 0 <= i < |lines| ==> ParseLine(lines[i]).Success? && EffectsOf(lines).value[i] == ParseLine(lines[i]).value
  {
    Collect.MapAllLength(ParseLine, lines);
    if EffectsOf(lines).Success? {
      forall i | 0 <= i < |lines|
        ensures ParseLine(lines[i]).Success? && EffectsOf(lines).value[i] == ParseLine(lines[i]).value
      {
        Collect.MapAllAt(ParseLine, lines, i);
      }
    }
  }

  /** A file without a count directive gets two reviewers. */
  lemma FileCountDefault(lines: seq<string>)
    requires EffectsOf(lines).Success?
    requires forall i :: 0 <= i < |lines| ==> LineCount(lines[i]) == Success(None)
    ensures ConfigOf(EffectsOf(lines).value).reviewerCount == DefaultReviewerCount
  {
    Collect.MapAllLength(ParseLine, lines);
    var es := EffectsOf(lines).value;
    forall i | 0 <= i < |es| ensures es[i].count.None? {
      Collect.MapAllAt(ParseLine, lines, i);
      LineEffectParts(lines[i]);
    }
    CountDefault(es);
  }

  /** The last line of the file whose comment sets a count sets the reviewer count. */
  lemma FileCountLastWins(lines: seq<string>, i: nat, n: int)
    requires EffectsOf(lines).Success?
    requires i < |lines| && LineCount(lines[i]) == Success(Some(n))
    requires forall j :: i < j < |lines| ==> LineCount(lines[j]) == Success(None)
    ensures ConfigOf(EffectsOf(lines).value).reviewerCount == n
  {
    var es := EffectsOf(lines).value;
    Collect.MapAllAt(ParseLine, lines, i);
    LineEffectParts(lines[i]);
    forall j | i < j < |es| ensures es[j].count.None? {
      Collect.MapAllAt(ParseLine, lines, j);
      LineEffectParts(lines[j]);
    }
    CountLastWins(es, i);
  }

  /** The rules of a file are the rules of its first part followed by those of the rest. */
  lemma FileRulesInOrder(a: seq<string>, b: seq<string>)
    requires EffectsOf(a + b).Success?
    ensures EffectsOf(a).Success? && EffectsOf(b).Success?
    ensures ConfigOf(EffectsOf(a + b).value).rules == ConfigOf(EffectsOf(a).value).rules + ConfigOf(EffectsOf(b).value).rules
  {
    Collect.MapAllSplit(ParseLine, a, b);
    RulesInFileOrder(EffectsOf(a).value, EffectsOf(b).value);
  }

  /** A one-line file has the line's rule when text is left once the comment is cut off, and none otherwise. */
  lemma FileOneLine(line: string)
    requires EffectsOf([line]).Success?
    ensures LineRule(Content(line)).Success?
    ensures ConfigOf(EffectsOf([line]).value).rules ==
      if Content(line) == "" then [] else [RuleOf(Content(line)).value]
  {
    Collect.MapAllAt(ParseLine, [line], 0);
    var es := EffectsOf([line]).value;
    assert [line][0] == line;
    LineEffectParts(line);
    assert es[..0] == [];
    assert RulesIn(es) == if es[0].rule.Some? then [es[0].rule.value] else [];
  }

  /** A file has one rule per line that has text before its comment. */
  lemma FileOneRulePerLine(lines: seq<string>)
    requires EffectsOf(lines).Success?
    ensures |ConfigOf(EffectsOf(lines).value).rules| == |set i | 0 <= i < |lines| && Content(lines[i]) != ""|
  {
    Collect.MapAllLength(ParseLine, lines);
    var es := EffectsOf(lines).value;
    OneRulePerRuleLine(es);
    forall i | 0 <= i < |lines|
      ensures es[i].rule.Some? <==> Content(lines[i]) != ""
    {
      Collect.MapAllAt(ParseLine, lines, i);
      LineEffectParts(lines[i]);
    }
    assert (set i | 0 <= i < |es| && es[i].rule.Some?) == (set i | 0 <= i < |lines| && Content(lines[i]) != "");
  }
}

/**
 * The line syntax of a CODEOWNERS file that both generations of `Config.parse`
 * share word for word: where a trailing comment starts, how the remaining text
 * is cut into tokens, and how the tokens become a rule.
 */
module CodeOwnersSyntax {
  import opened Wrappers
  import opened JavaStrings

  /** `Config.Rule`: a gitignore-style pattern and the set of its owner tokens. */
  datatype Rule = Rule(pattern: string, owners: set<string>)

  /** Why `Config.parse` throws. */
  datatype ParseError =
    | MissingPattern   // `parts.get(0)` on a line with text but no token
    | BadNumber        // `Integer.parseInt` rejects the reviewer count
    | MissingField     // `comment.split(" ")[1]` does not exist

  /**
   * Where the trailing comment starts: the LAST `#` of the line, provided it is
   * the first character or is not preceded by a backslash; otherwise no comment.
   */
  function CommentStart(line: string): (r: Option<nat>)
    ensures r.Some? ==> r.value < |line| && line[r.value] == '#'
    ensures r.Some? ==> forall j :: r.value < j < |line| ==> line[j] != '#'
    ensures r.Some? ==> r.value == 0 || line[r.value - 1] != '\\'
    ensures r.None? ==> forall k :: 0 <= k < |line| && line[k] == '#' ==>
      (exists j :: k < j < |line| && line[j] == '#') || (k > 0 && line[k - 1] == '\\')
  {
    var k := LastIndexOf(line, '#');
    if k == 0 || (k > 0 && line[k - 1] != '\\') then Some(k) else None
  }

  /** The trailing comment, from its `#` to the end of the line. */
  function Comment(line: string): (r: Option<string>)
    ensures r.Some? ==> |r.value| > 0 && r.value[0] == '#' && '#' !in r.value[1..]
    ensures r.Some? ==> line == Content(line) + r.value
    ensures r.None? ==> Content(line) == line
  {
    match CommentStart(line)
    case Some(k) =>
      assert line == line[..k] + line[k..];
      Some(line[k..])
    case None => None
  }

  /** The line with its trailing comment cut off. */
  function Content(line: string): (r: string)
    ensures r <= line
  {
    match CommentStart(line)
    case Some(k) => line[..k]
    case None => line
  }

  /** A piece that ends in a backslash gets a space put back after it. */
  function Escaped(piece: string): string
  {
    if |piece| > 0 && piece[|piece| - 1] == '\\' then piece + " " else piece
  }

  /** Drops the empty pieces and re-inserts escaped spaces. */
  function Tokenize(pieces: seq<string>): (ts: seq<string>)
    ensures |ts| <= |pieces|
    ensures forall i :: 0 <= i < |ts| ==> |ts[i]| > 0
  {
    if pieces == [] then []
    else (if pieces[0] == "" then [] else [Escaped(pieces[0])]) + Tokenize(pieces[1..])
  }

  /** The tokens of the text left after comment stripping. */
  function Tokens(content: string): seq<string>
  {
    Tokenize(Split(content, ' '))
  }

  /** The rule a non-empty content line gives, or the exception it throws. */
  function RuleOf(content: string): (r: Result<Rule, ParseError>)
    ensures r.Success? <==> |Tokens(content)| > 0
    ensures r.Success? ==> r.value.pattern == Tokens(content)[0]
    ensures r.Success? ==> forall t :: t in r.value.owners <==> t in Tokens(content)[1..]
  {
    var parts := Tokens(content);
    if |parts| == 0 then Failure(MissingPattern)
    else Success(Rule(parts[0], set t | t in parts[1..]))
  }

  /** The rule of the comment-free text: none for an empty text, else a rule or an exception. */
  function LineRule(content: string): Result<Option<Rule>, ParseError>
  {
    if content == "" then Success(None)
    else
      match RuleOf(content)
      case Failure(e) => Failure(e)
      case Success(rule) => Success(Some(rule))
  }

  /** The second half of the `forEach` lambda of both parsers: the tokens of what is left become a rule. */
  method ReadRule(text: string) returns (r: Result<Option<Rule>, ParseError>)
    ensures r == LineRule(text)
  {
    if text == "" {
      return Success(None);
    }
    var parts := Tokens(text);
    if |parts| == 0 {
      return Failure(MissingPattern);
    }
    var rule := Rule(parts[0], set t | t in parts[1..]);
    assert RuleOf(text) == Success(rule);
    return Success(Some(rule));
  }

  /** Words joined by single spaces come back as the same words, each escaped. */
  lemma {:induction false} TokensOfJoin(words: seq<string>)
    requires |words| > 0
    requires forall i :: 0 <= i < |words| ==> |words[i]| > 0 && ' ' !in words[i]
    ensures Tokens(Join(words, ' ')) == seq(|words|, i requires 0 <= i < |words| => Escaped(words[i]))
  {
    SplitJoin(words, ' ');
    TokenizeNonEmpty(words);
  }

  lemma {:induction false} TokenizeNonEmpty(words: seq<string>)
    requires forall i :: 0 <= i < |words| ==> |words[i]| > 0
    ensures Tokenize(words) == seq(|words|, i requires 0 <= i < |words| => Escaped(words[i]))
  {
    if words != [] {
      TokenizeNonEmpty(words[1..]);
    }
  }

  /** A string of spaces splits into empty pieces only. */
  lemma {:induction false} SplitOfSpaces(s: string)
    requires forall i :: 0 <= i < |s| ==> s[i] == ' '
    ensures forall i :: 0 <= i < |Split(s, ' ')| ==> Split(s, ' ')[i] == ""
    decreases |s|
  {
    if |s| > 0 {
      assert IndexOf(s, ' ') == 0;
      SplitOfSpaces(s[1..]);
      assert Split(s, ' ') == [""] + Split(s[1..], ' ');
    } else {
      assert IndexOf(s, ' ') == -1;
    }
  }

  lemma {:induction false} TokenizeEmptyPieces(pieces: seq<string>)
    requires forall i :: 0 <= i < |pieces| ==> pieces[i] == ""
    ensures Tokenize(pieces) == []
  {
    if pieces != [] {
      TokenizeEmptyPieces(pieces[1..]);
    }
  }

  /**
   * A line that is nothing but spaces has no token, so building its rule fails
   * (`parts.get(0)` on an empty list).
   */
  lemma OnlySpacesHasNoRule(content: string)
    requires forall i :: 0 <= i < |content| ==> content[i] == ' '
    ensures RuleOf(content) == Failure(MissingPattern)
  {
    SplitOfSpaces(content);
    TokenizeEmptyPieces(Split(content, ' '));
  }

  /**
   * A line of plain words separated by single spaces gives the rule whose
   * pattern is the first word and whose owners are the other words.
   */
  lemma RuleOfWords(words: seq<string>)
    requires |words| > 0
    requires forall i :: 0 <= i < |words| ==> |words[i]| > 0 && ' ' !in words[i] && words[i][|words[i]| - 1] != '\\'
    ensures RuleOf(Join(words, ' ')) == Success(Rule(words[0], set t | t in words[1..]))
  {
    TokensOfJoin(words);
    assert Tokens(Join(words, ' ')) == words;
  }

  /** Tokenizing works piece by piece: the tokens of two runs of pieces are concatenated. */
  lemma {:induction false} TokenizeAppend(a: seq<string>, b: seq<string>)
    ensures Tokenize(a + b) == Tokenize(a) + Tokenize(b)
  {
    if a == [] {
      assert a + b == b;
    } else {
      assert (a + b)[0] == a[0];
      assert (a + b)[1..] == a[1..] + b;
      TokenizeAppend(a[1..], b);
    }
  }

  /** A single piece: an empty one is dropped, any other is kept, escaped. */
  lemma TokenizeOne(piece: string)
    ensures Tokenize([piece]) == if piece == "" then [] else [Escaped(piece)]
  {
    assert [piece][1..] == [];
  }

  /** Text made of spaces only. */
  predicate Blank(s: string)
  {
    forall i :: 0 <= i < |s| ==> s[i] == ' '
  }

  /** A run of spaces in front of the text adds no token. */
  lemma {:induction false} TokensSkipBlank(spaces: string, rest: string)
    requires Blank(spaces)
    ensures Tokens(spaces + rest) == Tokens(rest)
    decreases |spaces|
  {
    if spaces != "" {
      var tail := spaces[1..] + rest;
      assert spaces + rest == "" + [' '] + tail;
      SplitAtFirst("", ' ', tail);
      TokenizeAppend([""], Split(tail, ' '));
      TokenizeOne("");
      TokensSkipBlank(spaces[1..], rest);
    } else {
      assert spaces + rest == rest;
    }
  }

  /** A space-free word followed by a space is one token, whatever follows. */
  lemma TokensWordThenSpace(word: string, rest: string)
    requires ' ' !in word
    ensures Tokens(word + " " + rest) == Tokenize([word]) + Tokens(rest)
  {
    SplitAtFirst(word, ' ', rest);
    TokenizeAppend([word], Split(rest, ' '));
  }

  /** Words, each followed by its own run of spaces. */
  function Spaced(words: seq<string>, gaps: seq<string>): string
    requires |words| == |gaps|
  {
    if words == [] then "" else words[0] + gaps[0] + Spaced(words[1..], gaps[1..])
  }

  /** An empty text has no token. */
  lemma NoTokensInEmpty()
    ensures Tokens("") == []
  {
    assert Split("", ' ') == [""];
    TokenizeOne("");
  }

  /** One word and the run of spaces after it give the word's token; a word with no spaces after it ends the line. */
  lemma SpacedStep(word: string, gap: string, rest: string)
    requires |word| > 0 && ' ' !in word && Blank(gap)
    requires gap != "" || rest == ""
    ensures Tokens(word + gap + rest) == [Escaped(word)] + Tokens(rest)
  {
    if gap == "" {
      assert word + gap + rest == word;
      assert Tokens(word) == [Escaped(word)] by {
        SplitNoSeparator(word, ' ');
        TokenizeOne(word);
      }
      NoTokensInEmpty();
    } else {
      var after := gap[1..] + rest;
      assert word + gap + rest == word + " " + after;
      assert Tokens(word + " " + after) == [Escaped(word)] + Tokens(after) by {
        TokensWordThenSpace(word, after);
        TokenizeOne(word);
      }
      assert Tokens(after) == Tokens(rest) by {
        TokensSkipBlank(gap[1..], rest);
      }
    }
  }

  /** However many spaces separate the words, the tokens are the words, each escaped. */
  lemma {:induction false} TokensOfSpaced(words: seq<string>, gaps: seq<string>)
    requires |words| == |gaps|
    requires forall i :: 0 <= i < |words| ==> |words[i]| > 0 && ' ' !in words[i] && Blank(gaps[i])
    requires forall i :: 0 <= i < |words| - 1 ==> |gaps[i]| > 0
    ensures Tokens(Spaced(words, gaps)) == seq(|words|, i requires 0 <= i < |words| => Escaped(words[i]))
  {
    if words == [] {
      NoTokensInEmpty();
    } else {
      var ws, gs := words[1..], gaps[1..];
      var rest := Spaced(ws, gs);
      var tail := seq(|ws|, i requires 0 <= i < |ws| => Escaped(ws[i]));
      assert Tokens(words[0] + gaps[0] + rest) == [Escaped(words[0])] + Tokens(rest) by {
        assert gaps[0] != "" || rest == "";
        SpacedStep(words[0], gaps[0], rest);
      }
      assert Tokens(rest) == tail by {
        assert forall i :: 0 <= i < |ws| ==> ws[i] == words[i + 1] && gs[i] == gaps[i + 1];
        TokensOfSpaced(ws, gs);
      }
      assert seq(|words|, i requires 0 <= i < |words| => Escaped(words[i])) == [Escaped(words[0])] + tail;
    }
  }

  /**
   * A line of plain words separated by runs of spaces, with blanks before
   * and after, gives the rule whose pattern is the first word and whose
   * owners are the other words.
   */
  lemma RuleOfSpacedWords(lead: string, words: seq<string>, gaps: seq<string>)
    requires Blank(lead) && |words| > 0 && |words| == |gaps|
    requires forall i :: 0 <= i < |words| ==> |words[i]| > 0 && ' ' !in words[i] && words[i][|words[i]| - 1] != '\\' && Blank(gaps[i])
    requires forall i :: 0 <= i < |words| - 1 ==> |gaps[i]| > 0
    ensures RuleOf(lead + Spaced(words, gaps)) == Success(Rule(words[0], set t | t in words[1..]))
  {
    TokensSkipBlank(lead, Spaced(words, gaps));
    TokensOfSpaced(words, gaps);
    assert Tokens(lead + Spaced(words, gaps)) == words;
  }

  /** Three words on a line, separated by single spaces. */
  lemma {:induction false} RuleOfThreeWords(line: string, words: seq<string>)
    requires |words| == 3 && line == words[0] + " " + words[1] + " " + words[2]
    requires forall i :: 0 <= i < 3 ==> |words[i]| > 0 && ' ' !in words[i] && words[i][|words[i]| - 1] != '\\'
    ensures RuleOf(line) == Success(Rule(words[0], {words[1], words[2]}))
  {
    JoinThree(words[0], words[1], words[2], ' ');
    assert words == [words[0], words[1], words[2]];
    RuleOfWords(words);
    assert words[1..] == [words[1], words[2]];
    assert (set t | t in words[1..]) == {words[1], words[2]};
  }

  /** `"* @kossuth @lajos"` gives one rule for `*` with two owners. */
  lemma MultiUserRule(line: string)
    requires line == "* @kossuth @lajos"
    ensures RuleOf(line) == Success(Rule("*", {"@kossuth", "@lajos"}))
  {
    RuleOfThreeWords(line, ["*", "@kossuth", "@lajos"]);
  }

  /** Three space-free words separated by single spaces are tokenised one by one. */
  lemma TokensOfThreeWords(line: string, words: seq<string>)
    requires |words| == 3 && line == words[0] + " " + words[1] + " " + words[2]
    requires forall i :: 0 <= i < 3 ==> |words[i]| > 0 && ' ' !in words[i]
    ensures Tokens(line) == [Escaped(words[0]), Escaped(words[1]), Escaped(words[2])]
  {
    JoinThree(words[0], words[1], words[2], ' ');
    assert words == [words[0], words[1], words[2]];
    TokensOfJoin(words);
  }

  /** A space escaped by a backslash keeps the backslash and still splits the token. */
  lemma EscapedSpaceQuirk(line: string)
    requires line == "my\\ file @a"
    ensures Tokens(line) == ["my\\ ", "file", "@a"]
  {
    TokensOfThreeWords(line, ["my\\", "file", "@a"]);
    assert Escaped("my\\") == "my\\ ";
  }
}

# gerrit-codeowners reviewer auto-assignment, modelled in Dafny

The gerrit-codeowners plugin puts reviewers on Gerrit changes. It reads the
branch's `CODEOWNERS` file and collects the owners of every changed path. It
resolves each owner token (an e-mail, `@user` or `@org/team`) to Gerrit
account ids through a memoising cache. When the owners are too few and the
file asks for it, it tops the candidates up with the authors of the files'
history. Finally it picks the reviewers from a consistent hash ring keyed by
the change id, so the same change always gets the same reviewers.

The repository holds two generations of the plugin, and they differ in
observable behaviour, so each is modelled on its own:

| part | `io.storj` (newer) | `com.mjpitz` (older) |
|---|---|---|
| `Config`: parse and `ownersFor` | `StorjConfig` (`storj_config.dfy`) | `MjpitzConfig` (`mjpitz_config.dfy`) |
| `HashRing` lookups | `StorjRing` (`storj_ring.dfy`) | `MjpitzRing` (`mjpitz_ring.dfy`) |
| `ReviewAssigner` | `StorjAssigner` (`storj_assigner.dfy`) | `MjpitzAssigner` (`mjpitz_assigner.dfy`) |

The two generations share four modules:
- `CodeOwnersSyntax` covers comment stripping and tokenising.
- `HashRings` covers the ring value and its copy-on-write builders, which are the same code in both generations.
- `TreeMaps` models a `TreeMap<String,String>` as its entry list in `String.compareTo` order.
- `LinkedSets` models a `LinkedHashSet<String>` as a duplicate-free sequence.

`JavaStrings` holds the `String`, `Integer` and Guava `Splitter` behaviour the
code relies on. `Wrappers` holds `Option` and `Result`. `Collect` holds the
line-by-line fold both parsers share: each line is parsed in order, and the
first line that throws ends the parse.

Everything outside the plugin becomes a parameter:
- **Gerrit's account query** is `query: string -> Option<seq<int>>`, where `None` means it throws.
- **GitHub lookups:** the user e-mail lookup is `githubEmail`, and the organisation/team lookup is `teams`.
- **The gitignore matcher** `FastIgnoreRule.isMatch(path, false)` is `matches(pattern, path)`.
- **The ring hasher** (MD5 in production) is `hasher: string -> string`.
- **The JGit history walk** is the sequence of author e-mails in log order.
- **The `CODEOWNERS` blob** is `Option<seq<string>>` of lines.

The `ReviewAssigner` classes are Dafny classes. Their field `cache` is a
`map` that the methods update, and every method states its result against
the cache as it was on entry. `Agrees(old(cache), cache)` says the cache only
ever gains answers, so an answer once given is never changed.

## Model

Source paths are relative to the repository root.

| member | source | states |
|---|---|---|
| JavaStrings.Less | src/main/java/io/storj/gerrit/plugins/codeowners/HashRing.java:34 | `String.compareTo` order on keys, the order of the `TreeMap` |
| JavaStrings.LessTotal | src/main/java/io/storj/gerrit/plugins/codeowners/HashRing.java:34 | two different keys are always ordered one way or the other, so `tailMap`/`headMap` split the ring |
| JavaStrings.LessTransitive | src/main/java/io/storj/gerrit/plugins/codeowners/HashRing.java:34 | the key order is transitive |
| JavaStrings.LessIrreflexive | src/main/java/io/storj/gerrit/plugins/codeowners/HashRing.java:34 | no key is before itself |
| JavaStrings.LessAsymmetric | src/main/java/io/storj/gerrit/plugins/codeowners/HashRing.java:34 | two keys are never before each other |
| JavaStrings.LastIndexOf | src/main/java/io/storj/codeowners/Config.java:64 | `lastIndexOf('#')`: -1 iff absent, else the position of the last occurrence |
| JavaStrings.IndexOf | src/main/java/io/storj/gerrit/plugins/codeowners/ReviewAssigner.java:105 | `indexOf('/')`: -1 iff absent, else the first occurrence |
| JavaStrings.Split | src/main/java/io/storj/codeowners/Config.java:85-87 | Guava `Splitter.on(' ')`: pieces free of the separator that join back to the input |
| JavaStrings.SplitJoin | src/main/java/io/storj/codeowners/Config.java:85-87 | splitting a join of separator-free pieces gives the pieces back |
| JavaStrings.SplitNoSeparator | src/main/java/io/storj/codeowners/Config.java:85 | a text without a space splits into itself alone |
| JavaStrings.SplitAtFirst | src/main/java/com/mjpitz/codeowners/Config.java:56 | splitting at the first separator gives the text before it followed by the pieces of the rest |
| JavaStrings.DropTrailingEmpty | src/main/java/com/mjpitz/codeowners/Config.java:56 | `String.split` drops the trailing empty pieces and only those |
| JavaStrings.ParseInt | src/main/java/com/mjpitz/codeowners/Config.java:56 | `Integer.parseInt`: a value only within the 32-bit range |
| JavaStrings.NatToString | src/main/java/io/storj/gerrit/plugins/codeowners/ReviewAssigner.java:267 | `toString` of a non-negative number is a non-empty run of digits |
| JavaStrings.DigitsRoundTrip | src/main/java/io/storj/gerrit/plugins/codeowners/ReviewAssigner.java:267 | reading the digits of a number back gives the number |
| JavaStrings.ParseUnsigned | src/main/java/com/mjpitz/codeowners/Config.java:56 | a digit run within `Integer.MAX_VALUE` parses to its value |
| JavaStrings.ParseNegative | src/main/java/com/mjpitz/codeowners/Config.java:56 | `-` then a digit run within `-Integer.MIN_VALUE` parses to the negated value |
| JavaStrings.IntRoundTrip | src/main/java/io/storj/gerrit/plugins/codeowners/ReviewAssigner.java:267 | parsing the decimal text of any 32-bit int gives the int back |
| JavaStrings.IntToStringInjective | src/main/java/io/storj/gerrit/plugins/codeowners/ReviewAssigner.java:267 | different account ids have different ring node names |
| TreeMaps.Get | src/main/java/io/storj/gerrit/plugins/codeowners/HashRing.java:34 | `get(k)` finds the entry with key `k` or reports that none exists |
| TreeMaps.Put | src/main/java/io/storj/gerrit/plugins/codeowners/HashRing.java:72 | `ring.put(key, node)` keeps the map sorted, maps `key` to `node` and changes no other key |
| TreeMaps.Values | src/main/java/io/storj/gerrit/plugins/codeowners/HashRing.java:122-131 | the values of the entries, in key order |
| TreeMaps.WithoutSorted | src/main/java/io/storj/gerrit/plugins/codeowners/HashRing.java:94-101 | taking out a node's entries keeps the map sorted and unmaps exactly the keys that mapped to that node |
| TreeMaps.SortedUnique | src/main/java/io/storj/gerrit/plugins/codeowners/HashRing.java:34 | two sorted maps with the same lookups are the same map |
| LinkedSets.Add | src/main/java/io/storj/gerrit/plugins/codeowners/HashRing.java:123 | `LinkedHashSet.add`: duplicate-free, adds exactly `x`, keeps insertion order |
| LinkedSets.Dedup | src/main/java/io/storj/gerrit/plugins/codeowners/HashRing.java:118-137 | the set built by adding a sequence in order holds exactly its elements, once each |
| LinkedSets.Drop | src/main/java/io/storj/gerrit/plugins/codeowners/HashRing.java:96 | the list without `x`: every other element kept, nothing added |
| LinkedSets.DropSize | src/main/java/io/storj/gerrit/plugins/codeowners/HashRing.java:94-101 | taking a present element out of a duplicate-free list shortens it by one, an absent one leaves it as it was |
| LinkedSets.Take | src/main/java/io/storj/gerrit/plugins/codeowners/HashRing.java:124-134 | the first `n` elements, all of them when `n` is negative or past the end |
| LinkedSets.DedupFirst | src/main/java/io/storj/gerrit/plugins/codeowners/HashRing.java:103-109 | the first node of a non-empty scan is the first element of the set |
| LinkedSets.DistinctCard | src/main/java/io/storj/gerrit/plugins/codeowners/ReviewAssigner.java:268 | a duplicate-free list has as many elements as its set |
| LinkedSets.DedupDrop | src/main/java/io/storj/gerrit/plugins/codeowners/HashRing.java:94-101 | building the set without `x` equals building it and then taking `x` out |
| LinkedSets.TakeDrop | src/main/java/io/storj/gerrit/plugins/codeowners/HashRing.java:124-126 | taking out an element that is not among the first `n` leaves the first `n` unchanged |
| LinkedSets.SubsetShorter | src/main/java/io/storj/gerrit/plugins/codeowners/ReviewAssigner.java:264 | a duplicate-free list inside another is no longer than it |
| CodeOwnersSyntax.CommentStart | src/main/java/io/storj/codeowners/Config.java:64-65 | the comment starts at the last `#` when it is at index 0 or not after `\`; otherwise nothing is a comment, even when an earlier `#` is unescaped |
| CodeOwnersSyntax.Comment | src/main/java/io/storj/codeowners/Config.java:64-78 | the comment is `#` plus text without `#`, and content + comment is the whole line |
| CodeOwnersSyntax.Content | src/main/java/io/storj/codeowners/Config.java:78 | the text before the comment is a prefix of the line |
| CodeOwnersSyntax.Tokenize | src/main/java/io/storj/codeowners/Config.java:85-97 | every token is non-empty; no more tokens than pieces |
| CodeOwnersSyntax.TokenizeAppend | src/main/java/io/storj/codeowners/Config.java:85-97 | the stream works piece by piece: the tokens of two runs of pieces are the two token lists concatenated |
| CodeOwnersSyntax.TokenizeOne | src/main/java/io/storj/codeowners/Config.java:88-96 | a single piece gives no token when empty and the piece, trailing `\` turned into `\ `, otherwise (with `TokenizeAppend` this fixes `Tokenize` on every input) |
| CodeOwnersSyntax.NoTokensInEmpty | src/main/java/io/storj/codeowners/Config.java:85-97 | the empty text has no token |
| CodeOwnersSyntax.TokensSkipBlank | src/main/java/io/storj/codeowners/Config.java:85-88 | a run of spaces in front of the text adds no token |
| CodeOwnersSyntax.TokensWordThenSpace | src/main/java/io/storj/codeowners/Config.java:85-97 | a space-free word followed by a space is one token, whatever follows |
| CodeOwnersSyntax.SpacedStep | src/main/java/io/storj/codeowners/Config.java:85-97 | a word and the run of spaces after it give the word's token, followed by the tokens of the rest |
| CodeOwnersSyntax.TokensOfSpaced | src/main/java/io/storj/codeowners/Config.java:85-97 | words separated by runs of any length of spaces tokenise back to the words, each escaped |
| CodeOwnersSyntax.RuleOf | src/main/java/io/storj/codeowners/Config.java:99-102 | a rule iff there is a token; its pattern is the first token and its owner set holds exactly the rest; no token is the `parts.get(0)` failure |
| CodeOwnersSyntax.ReadRule | src/main/java/io/storj/codeowners/Config.java:81-102 | the rule step of the per-line loop agrees with `LineRule` |
| CodeOwnersSyntax.TokensOfJoin | src/main/java/io/storj/codeowners/Config.java:85-97 | words joined by single spaces tokenise back to the words, a trailing `\` getting a space |
| CodeOwnersSyntax.TokenizeNonEmpty | src/main/java/io/storj/codeowners/Config.java:88-96 | non-empty pieces are all kept, each with its trailing `\` turned into `\ ` |
| CodeOwnersSyntax.TokensOfThreeWords | src/main/java/io/storj/codeowners/Config.java:85-97 | three space-separated words give three tokens |
| CodeOwnersSyntax.RuleOfThreeWords | src/main/java/io/storj/codeowners/Config.java:85-102 | three space-separated words give the rule of the first, owned by the other two |
| CodeOwnersSyntax.OnlySpacesHasNoRule | src/main/java/io/storj/codeowners/Config.java:85-99 | a line of spaces only has no token, so building its rule fails |
| CodeOwnersSyntax.RuleOfWords | src/main/java/io/storj/codeowners/Config.java:85-102 | a line of plain words is the rule of its first word, owned by the others (duplicates collapse) |
| CodeOwnersSyntax.RuleOfSpacedWords | src/main/java/io/storj/codeowners/Config.java:85-102 | the same rule when the words are separated by runs of spaces and the line has blanks before and after |
| CodeOwnersSyntax.MultiUserRule | src/test/java/io/storj/codeowners/ConfigTest.java:45-51 | `* @kossuth @lajos` is one rule with pattern `*` and the two owners |
| CodeOwnersSyntax.EscapedSpaceQuirk | src/main/java/io/storj/codeowners/Config.java:93-95 | `my\ file @a` tokenises to `my\ `, `file`, `@a`: the backslash stays and the escaped word is still split |
| StorjConfig.SkipSpaces | src/main/java/io/storj/codeowners/Config.java:19 | `\s*` takes the longest run of regex white space |
| StorjConfig.LeadingDigits | src/main/java/io/storj/codeowners/Config.java:19 | `(\d+)` takes the longest run of digits |
| StorjConfig.FindOnlyAtStart | src/main/java/io/storj/codeowners/Config.java:68-76 | on a comment with one `#`, `find()` can only match at the `#`, so searching equals matching at the start |
| StorjConfig.NoMatchWithoutHash | src/main/java/io/storj/codeowners/Config.java:19-21 | text without `#` matches neither directive |
| StorjConfig.NumberMatches | src/main/java/io/storj/codeowners/Config.java:19 | every text of the shape `#`, spaces, namespace, any char, key, spaces, digits matches and captures those digits |
| StorjConfig.NumberShape | src/main/java/io/storj/codeowners/Config.java:69-72 | conversely every match has that shape, with the captured group the maximal digit run |
| StorjConfig.NumberAfterShape | src/main/java/io/storj/codeowners/Config.java:19 | after the key come spaces, the captured digit run and a rest that does not start with a digit, and nothing else |
| StorjConfig.DirectiveMatches | src/main/java/io/storj/codeowners/Config.java:19-21 | `#\s*gerrit-codeowners` then any non-terminator character matches, the `.` being a regex wildcard |
| StorjConfig.DirectiveShape | src/main/java/io/storj/codeowners/Config.java:19-21 | every directive match has that shape |
| StorjConfig.FlagMatches | src/main/java/io/storj/codeowners/Config.java:73-76 | every text of the use-git-history shape sets the flag |
| StorjConfig.FlagShape | src/main/java/io/storj/codeowners/Config.java:73-76 | every text that sets the flag has that shape |
| StorjConfig.CountPatternSpaced | src/test/java/io/storj/codeowners/ConfigTest.java:56-65 | `# gerrit-codeowners.reviewer-count: 3` gives `3` |
| StorjConfig.CountPatternTight | src/test/java/io/storj/codeowners/ConfigTest.java:56-65 | `#gerrit-codeowners.reviewer-count:55` gives `55` |
| StorjConfig.CountPatternWrongKey | src/test/java/io/storj/codeowners/ConfigTest.java:56-65 | `#gerrit-codeownersxxx: 5` does not match |
| StorjConfig.NoHashAfterWrongKey | src/test/java/io/storj/codeowners/ConfigTest.java:56-65 | the text after the wrong key has no `#`, so no later match can start there |
| StorjConfig.DirectivesStartAtTheHash | src/main/java/io/storj/codeowners/Config.java:64-76 | the directives are read from the stripped comment only, and a line without one reads neither |
| StorjConfig.ReadComment | src/main/java/io/storj/codeowners/Config.java:64-79 | the comment step yields the count digits, the history flag and the stripped line |
| StorjConfig.ParseOne | src/main/java/io/storj/codeowners/Config.java:63-103 | one line of the `forEach` fails exactly when its rule fails, and otherwise applies its effect to the state |
| StorjConfig.Parse | src/main/java/io/storj/codeowners/Config.java:57-106 | `parse` is the first failing line's error, or the configuration folded from all line effects |
| StorjConfig.StateStep | src/main/java/io/storj/codeowners/Config.java:63-103 | the state after one more line is that line's effect applied to the state before it |
| StorjConfig.CountDefault | src/main/java/io/storj/codeowners/Config.java:59-60 | with no count directive the reviewer count is 2 |
| StorjConfig.CountLastWins | src/main/java/io/storj/codeowners/Config.java:69-72 | the last line carrying a count directive sets the count |
| StorjConfig.HistoryAnyLine | src/main/java/io/storj/codeowners/Config.java:73-76 | use-git-history is on iff some line carries the directive; no later line resets it |
| StorjConfig.RulesInFileOrder | src/main/java/io/storj/codeowners/Config.java:99-102 | the rules of two blocks of lines are the first block's rules followed by the second's |
| StorjConfig.OneRulePerRuleLine | src/main/java/io/storj/codeowners/Config.java:81-102 | exactly one rule per line that has content |
| StorjConfig.RuleIffText | src/main/java/io/storj/codeowners/Config.java:81-83 | a parsed line gives a rule iff it is not `""` after stripping |
| StorjConfig.EffectsIndex | src/main/java/io/storj/codeowners/Config.java:61-103 | when the file parses, it has one effect per line and the `i`-th effect is that of the `i`-th line, which parses |
| StorjConfig.LineEffectParts | src/main/java/io/storj/codeowners/Config.java:64-102 | a parsed line's effect holds the number its count directive reads (which parses), its history flag and its rule |
| StorjConfig.FileCountDefault | src/main/java/io/storj/codeowners/Config.java:59-72 | a file with no count directive on any line gets 2 reviewers |
| StorjConfig.FileCountLastWins | src/main/java/io/storj/codeowners/Config.java:69-72 | the last line of the file with a count directive sets the count to the number it reads |
| StorjConfig.FileHistory | src/main/java/io/storj/codeowners/Config.java:73-76 | use-git-history is on iff some line of the file carries the directive |
| StorjConfig.FileRulesInOrder | src/main/java/io/storj/codeowners/Config.java:99-102 | the rules of a file are those of its first lines followed by those of the rest |
| StorjConfig.FileOneLine | src/main/java/io/storj/codeowners/Config.java:81-102 | a one-line file has no rule when nothing is left of the line after the comment is cut off, and that line's rule otherwise |
| StorjConfig.FileOneRulePerLine | src/main/java/io/storj/codeowners/Config.java:81-102 | a file has exactly one rule per line with text before its comment |
| StorjConfig.OwnersFor | src/main/java/io/storj/codeowners/Config.java:34-45 | an owner is returned iff some matching rule lists it (the union; empty when none match) |
| MjpitzConfig.ReadComment | src/main/java/com/mjpitz/codeowners/Config.java:50-59 | the comment step gives the count directive's outcome, and the stripped line when it does not throw |
| MjpitzConfig.ParseOne | src/main/java/com/mjpitz/codeowners/Config.java:49-83 | one line of the `forEach` fails exactly when its count or rule fails, and otherwise applies its effect |
| MjpitzConfig.Parse | src/main/java/com/mjpitz/codeowners/Config.java:44-86 | `parse` is the first failing line's error, or the configuration folded from all line effects |
| MjpitzConfig.ConfigStep | src/main/java/com/mjpitz/codeowners/Config.java:49-83 | the configuration after one more line is that line's effect applied to the one before |
| MjpitzConfig.CountDefault | src/main/java/com/mjpitz/codeowners/Config.java:46-57 | with no count directive the reviewer count is 2 |
| MjpitzConfig.CountLastWins | src/main/java/com/mjpitz/codeowners/Config.java:55-57 | the last line carrying a count directive sets the count |
| MjpitzConfig.RulesInFileOrder | src/main/java/com/mjpitz/codeowners/Config.java:79-82 | the rules of two blocks of lines are the first block's rules followed by the second's |
| MjpitzConfig.OneRulePerRuleLine | src/main/java/com/mjpitz/codeowners/Config.java:61-82 | exactly one rule per line effect that carries one |
| MjpitzConfig.LineEffectParts | src/main/java/com/mjpitz/codeowners/Config.java:50-82 | a parsed line's effect holds the count its comment sets and its rule |
| MjpitzConfig.EffectsIndex | src/main/java/com/mjpitz/codeowners/Config.java:47-83 | when the file parses, it has one effect per line and the `i`-th effect is that of the `i`-th line, which parses |
| MjpitzConfig.FileCountDefault | src/main/java/com/mjpitz/codeowners/Config.java:46-57 | a file in which no comment sets a count gets 2 reviewers |
| MjpitzConfig.FileCountLastWins | src/main/java/com/mjpitz/codeowners/Config.java:55-57 | the last line of the file whose comment sets a count sets the reviewer count |
| MjpitzConfig.FileRulesInOrder | src/main/java/com/mjpitz/codeowners/Config.java:79-82 | the rules of a file are those of its first lines followed by those of the rest |
| MjpitzConfig.FileOneLine | src/main/java/com/mjpitz/codeowners/Config.java:61-82 | a one-line file has no rule when nothing is left of the line after the comment is cut off, and that line's rule otherwise |
| MjpitzConfig.FileOneRulePerLine | src/main/java/com/mjpitz/codeowners/Config.java:61-82 | a file has exactly one rule per line with text before its comment |
| Collect.MapAllLength | src/main/java/io/storj/codeowners/Config.java:61-103 | a file that parses has one line effect per line |
| Collect.MapAllAt | src/main/java/io/storj/codeowners/Config.java:61-103 | in a file that parses every line parses, and its effect sits at its own index |
| Collect.MapAllSucceeds | src/main/java/io/storj/codeowners/Config.java:61-103 | a file whose every line parses does not fail |
| Collect.MapAllSplit | src/main/java/io/storj/codeowners/Config.java:61-103 | the line effects of a file are those of its first lines followed by those of the rest |
| Collect.FirstFailureSticks | src/main/java/io/storj/codeowners/Config.java:61-103 | once a line fails the parse, later lines do not change the outcome |
| MjpitzConfig.CountAfterOneSpace | src/main/java/com/mjpitz/codeowners/Config.java:55-57 | `#gerrit-codeowners.reviewer-count: w` sets the count to `parseInt(w)`, or fails on non-numeric `w` |
| MjpitzConfig.NoSpaceInPrefix | src/main/java/com/mjpitz/codeowners/Config.java:55 | the count prefix `#gerrit-codeowners.reviewer-count:` has no space, so it is the whole of field [0] |
| MjpitzConfig.CountWithoutSpaceThrows | src/main/java/com/mjpitz/codeowners/Config.java:55-57 | the directive with no space has no field [1] and fails |
| MjpitzConfig.SpaceAfterHashIgnored | src/main/java/com/mjpitz/codeowners/Config.java:55 | `# gerrit-codeowners...` does not start with the prefix and is ignored |
| MjpitzConfig.LastOwnersMatch | src/main/java/com/mjpitz/codeowners/Config.java:26-37 | the owners are those of the last matching rule |
| MjpitzConfig.LastOwnersNone | src/main/java/com/mjpitz/codeowners/Config.java:26-37 | no matching rule gives no owners |
| MjpitzConfig.OwnersFor | src/main/java/com/mjpitz/codeowners/Config.java:26-37 | the loop returns the last matching rule's owners, or `{}` when none match |
| MjpitzConfig.LastMatchWithinUnion | src/main/java/com/mjpitz/codeowners/Config.java:26-37 | the older lookup's answer is always within the newer union lookup's answer |
| MjpitzConfig.LastMatch | src/main/java/com/mjpitz/codeowners/Config.java:26-37 | when some rule matches there is a last matching one, after which none matches |
| HashRings.Make | src/main/java/io/storj/gerrit/plugins/codeowners/HashRing.java:65-75 | `make()` leaves a sorted ring mapping each hash to the last node, in weight-map order, with a replica `node-i` (`i < weight`) hashing there |
| HashRings.Empty | src/main/java/io/storj/gerrit/plugins/codeowners/HashRing.java:36-43 | a new ring is valid, of size 0 and empty |
| HashRings.WithWeightedNode | src/main/java/io/storj/gerrit/plugins/codeowners/HashRing.java:81-92 | `weight <= 0` returns the receiver; otherwise a valid ring over the weight map with the node's weight set |
| HashRings.WithNode | src/main/java/io/storj/gerrit/plugins/codeowners/HashRing.java:77-79 | weight 1; the size grows by one iff the node is new |
| HashRings.WithoutNode | src/main/java/io/storj/gerrit/plugins/codeowners/HashRing.java:94-101 | a valid ring over the weight map without the node; the size drops by one iff it was there |
| HashRings.FromElements | src/main/java/io/storj/gerrit/plugins/codeowners/HashRing.java:51-59 | every distinct element at weight 1, in first-seen order |
| HashRings.PutWeightNodes | src/main/java/io/storj/gerrit/plugins/codeowners/HashRing.java:86-87 | `LinkedHashMap.put` keeps a present key's place and appends a new one |
| HashRings.PutWeight | src/main/java/io/storj/gerrit/plugins/codeowners/HashRing.java:86-87 | `weights.put`: a present node gets its new weight in place; a new node is appended |
| HashRings.RemoveWeight | src/main/java/io/storj/gerrit/plugins/codeowners/HashRing.java:95-96 | `weights.remove`: exactly the entries of the other nodes remain |
| HashRings.RemoveWeightNodes | src/main/java/io/storj/gerrit/plugins/codeowners/HashRing.java:95-96 | the nodes after removal are the nodes before it without the removed one, in order |
| HashRings.RemoveWeightWell | src/main/java/io/storj/gerrit/plugins/codeowners/HashRing.java:95-96 | `remove` keeps the map well formed and shrinks it by one iff the key was there |
| HashRings.RingDetermined | src/main/java/io/storj/gerrit/plugins/codeowners/HashRing.java:65-75 | the ring is a function of the hasher and the weight map |
| HashRings.ReplicaStep | src/main/java/io/storj/gerrit/plugins/codeowners/HashRing.java:70-73 | one more replica adds exactly the hash of `node-i` |
| HashRings.OwnerHasReplica | src/main/java/io/storj/gerrit/plugins/codeowners/HashRing.java:65-75 | an owned key is the hash of a replica of its owner; an unowned key is the hash of no replica |
| HashRings.OwnerWithout | src/main/java/io/storj/gerrit/plugins/codeowners/HashRing.java:94-101 | over a separated hasher, after removing a node every key keeps its owner, unless it was that node's, when it has none |
| HashRings.RingWithout | src/main/java/io/storj/gerrit/plugins/codeowners/HashRing.java:94-101 | over a separated hasher, the rebuilt ring is the old ring with the removed node's entries taken out |
| HashRings.EveryNodeOwnsEntry | src/main/java/io/storj/gerrit/plugins/codeowners/HashRing.java:65-75 | over a separated hasher, every node owns its first replica's entry |
| HashRings.RingValuesAreNodes | src/main/java/io/storj/gerrit/plugins/codeowners/HashRing.java:65-75 | every node on the ring is a key of the weight map |
| HashRings.LabelInjective | src/main/java/io/storj/gerrit/plugins/codeowners/HashRing.java:71 | `node + "-" + i` determines `node` and `i` |
| HashRings.CollisionlessSeparated | src/main/java/io/storj/gerrit/plugins/codeowners/HashRing.java:71-72 | an injective hasher keeps the replicas of different nodes apart |
| HashRings.UnitOwner | src/main/java/io/storj/gerrit/plugins/codeowners/HashRing.java:65-75 | at weight 1 over a separated hasher, the owner of a hash is the one node whose first replica hashes there, wherever it sits in the weight map |
| HashRings.UnitOwnerAt | src/main/java/io/storj/gerrit/plugins/codeowners/HashRing.java:65-75 | at weight 1 over a separated hasher, the node whose replica hashes to `k` owns `k` |
| HashRings.SameNodesSameRing | src/main/java/io/storj/gerrit/plugins/codeowners/HashRing.java:51-75 | over a separated hasher, weight maps holding the same nodes at weight 1 give the same ring and size, in whatever order the nodes were put |
| StorjRing.Collect | src/main/java/io/storj/gerrit/plugins/codeowners/HashRing.java:121-135 | one scan adds its nodes in order and stops at `size` |
| StorjRing.GetNodes | src/main/java/io/storj/gerrit/plugins/codeowners/HashRing.java:111-138 | empty for an empty ring or `size == 0`; otherwise the first `size` distinct nodes of the entries strictly above the needle, then strictly below it |
| StorjRing.GetNode | src/main/java/io/storj/gerrit/plugins/codeowners/HashRing.java:103-109 | the first node met, or `""` |
| StorjRing.SelectionShape | src/main/java/io/storj/gerrit/plugins/codeowners/HashRing.java:111-138 | distinct nodes of the map, at most `size`, exactly `min(size, reachable)`, and every reachable node when `size < 0` |
| StorjRing.ScanMembers | src/main/java/io/storj/gerrit/plugins/codeowners/HashRing.java:118-135 | every node met by the two views is a node of the ring |
| StorjRing.SelectionGrows | src/main/java/io/storj/gerrit/plugins/codeowners/HashRing.java:111-138 | asking for more nodes only adds nodes after the earlier choices |
| StorjRing.NeedleEntrySkipped | src/main/java/io/storj/gerrit/plugins/codeowners/HashRing.java:121-129 | an entry whose hash equals the needle is in neither view |
| StorjRing.LoneEntryAtNeedle | src/main/java/io/storj/gerrit/plugins/codeowners/HashRing.java:121-137 | a ring whose only entry sits at the needle has a node but answers nothing |
| StorjRing.RemoveUnchosen | src/test/java/io/storj/gerrit/plugins/codeowners/HashRingTest.java:45-65 | over a separated hasher, removing a node the lookup did not choose leaves the lookup unchanged |
| StorjRing.ScanReachesAll | src/main/java/io/storj/gerrit/plugins/codeowners/HashRing.java:118-137 | over a separated hasher, when no entry sits at the needle the two views meet every node, so `getNodes` can fill up to `size()` |
| StorjRing.SameNodesSameChoice | src/main/java/io/storj/gerrit/plugins/codeowners/HashRing.java:111-138 | over a separated hasher, rings holding the same nodes at weight 1 answer every `getNodes` alike |
| StorjRing.ThreeNodesValid | src/test/java/io/storj/gerrit/plugins/codeowners/HashRingTest.java:82-86 | `aaa`, `bbb`, `ccc` under the identity hasher make the ring `aaa-0`, `bbb-0`, `ccc-0` |
| StorjRing.ThreeOwners | src/main/java/io/storj/gerrit/plugins/codeowners/HashRing.java:65-75 | in the three-node ring `aaa-0`, `bbb-0`, `ccc-0` are owned by `aaa`, `bbb`, `ccc` and no other key is owned |
| StorjRing.ScanBetween | src/main/java/io/storj/gerrit/plugins/codeowners/HashRing.java:121-135 | for needle `bb1` the views meet `bbb`, `ccc`, then `aaa` |
| StorjRing.ScanPastEnd | src/main/java/io/storj/gerrit/plugins/codeowners/HashRing.java:121-135 | for needle `ddd` the tail is empty and the head meets `aaa`, `bbb`, `ccc` |
| StorjRing.FromEndBetween | src/test/java/io/storj/gerrit/plugins/codeowners/HashRingTest.java:88 | `getNodes("bb1", 2)` is `bbb`, `ccc` |
| StorjRing.FromEndPastEnd | src/test/java/io/storj/gerrit/plugins/codeowners/HashRingTest.java:89 | `getNodes("ddd", 2)` is `aaa`, `bbb` |
| StorjRing.NotEnoughAssignee | src/test/java/io/storj/gerrit/plugins/codeowners/HashRingTest.java:106-115 | the ring of `ccc` alone answers `ccc` for needles on either side and any `size >= 1` |
| MjpitzRing.Wrap | src/main/java/com/mjpitz/gerrit/plugins/codeowners/HashRing.java:113-126 | the loop adds the tail, then the head over and over, and returns the first `size` distinct nodes |
| MjpitzRing.ScanDone | src/main/java/com/mjpitz/gerrit/plugins/codeowners/HashRing.java:117 | when the loop stops, its set is the first `size` distinct nodes of tail + head |
| MjpitzRing.ScanStep | src/main/java/com/mjpitz/gerrit/plugins/codeowners/HashRing.java:117-124 | one loop turn adds the next node of tail then head, wrapping round, and keeps the loop invariant |
| MjpitzRing.EntryOnScan | src/main/java/com/mjpitz/gerrit/plugins/codeowners/HashRing.java:116-124 | every entry of the ring is met in the trip round it |
| MjpitzRing.ScanNodes | src/main/java/com/mjpitz/gerrit/plugins/codeowners/HashRing.java:116-124 | every node met is a node of the weight map |
| MjpitzRing.GetNodes | src/main/java/com/mjpitz/gerrit/plugins/codeowners/HashRing.java:105-127 | empty for an empty ring, `size > size()`, `size <= 0` or nothing past the needle; otherwise the first `size` distinct nodes of tail then head |
| MjpitzRing.GetNode | src/main/java/com/mjpitz/gerrit/plugins/codeowners/HashRing.java:97-103 | the first node past the needle, or `""` when nothing lies past it |
| MjpitzRing.ScanCoversNodes | src/main/java/com/mjpitz/gerrit/plugins/codeowners/HashRing.java:116-124 | over a separated hasher one trip round the ring meets every node |
| MjpitzRing.SeparatedTerminates | src/main/java/com/mjpitz/gerrit/plugins/codeowners/HashRing.java:117-124 | over a separated hasher the loop stops |
| MjpitzRing.SelectionShape | src/main/java/com/mjpitz/gerrit/plugins/codeowners/HashRing.java:113-126 | distinct nodes of the map, at most `size`, a prefix of the trip round the ring |
| MjpitzRing.TailEmptyCounterexample | src/main/java/com/mjpitz/gerrit/plugins/codeowners/HashRing.java:116-117 | node `ccc` and key `ddd` under the identity hasher: the ring has a node but `getNodes("ddd", 1)` is empty |
| MjpitzRing.OneNodeValid | src/main/java/com/mjpitz/gerrit/plugins/codeowners/HashRing.java:59-69 | node `ccc` under the identity hasher makes the valid, separated ring holding `ccc-0` |
| MjpitzRing.OneNodeViews | src/main/java/com/mjpitz/gerrit/plugins/codeowners/HashRing.java:116-118 | for needle `ddd` that ring has an empty tail and `ccc` in the head |
| MjpitzRing.GetNodesWrapped | src/main/java/com/mjpitz/gerrit/plugins/codeowners/HashRing.java:105-127 | the corrected lookup: the first `size` distinct nodes of the trip round the ring, even when nothing lies past the needle |
| MjpitzRing.WrappedSelectionFull | src/main/java/com/mjpitz/gerrit/plugins/codeowners/HashRing.java:105-127 | over a separated hasher the corrected lookup stops and returns exactly `size` distinct nodes of the map when `0 <= size <= size()` |
| MjpitzRing.WrappedAgrees | src/main/java/com/mjpitz/gerrit/plugins/codeowners/HashRing.java:116-124 | when the tail is not empty, the corrected lookup and the code as written agree |
| MjpitzRing.RemoveUnchosen | src/test/java/com/mjpitz/gerrit/plugins/codeowners/HashRingTest.java:41-61 | over a separated hasher, removing a node the lookup did not choose leaves the lookup unchanged |
| MjpitzRing.UnchosenLeavesRoom | src/main/java/com/mjpitz/gerrit/plugins/codeowners/HashRing.java:88-95 | when the lookup did not choose `x`, the ring without `x` still has at least `size` nodes |
| MjpitzRing.ScanWithout | src/main/java/com/mjpitz/gerrit/plugins/codeowners/HashRing.java:88-95 | the trip round the rebuilt ring is the trip round the old one with `x` taken out |
| MjpitzRing.SameNodesSameChoice | src/main/java/com/mjpitz/gerrit/plugins/codeowners/HashRing.java:105-127 | over a separated hasher, rings holding the same nodes at weight 1 answer every lookup alike, as written and corrected |
| StorjAssigner.RouteCases | src/main/java/io/storj/gerrit/plugins/codeowners/ReviewAssigner.java:104-128 | every `@` token is a user name (even `@org/team`); a token without `@` or `/` is an e-mail; a leading `/` makes `substring(1, 0)` throw; the rest are teams split at the first `/` |
| StorjAssigner.Count | src/main/java/io/storj/gerrit/plugins/codeowners/ReviewAssigner.java:256-264 | the corrected request size: never negative, at most the candidates, 0 when nothing is missing, `min` otherwise |
| StorjAssigner.SurplusReviewersAssignAll | src/main/java/io/storj/gerrit/plugins/codeowners/ReviewAssigner.java:252-268 | three reviewers against a count of 2 give `numberToAssign == -1`, and `getNodes` then returns every reachable candidate |
| StorjAssigner.CountNeverExceedsMissing | src/main/java/io/storj/gerrit/plugins/codeowners/ReviewAssigner.java:264-268 | with the corrected count the ring never returns more than the missing reviewers or the candidates |
| StorjAssigner.ToSeq | src/main/java/io/storj/gerrit/plugins/codeowners/ReviewAssigner.java:267 | `HashSet` iteration yields each element once |
| StorjAssigner.SameCandidatesSameChoice | src/main/java/io/storj/gerrit/plugins/codeowners/ReviewAssigner.java:263-268 | over a collision-free hasher every ring `fromElements` can build over the candidates, in any `HashSet` order, chooses the same reviewers |
| StorjAssigner.NeedleOffRing | src/main/java/io/storj/gerrit/plugins/codeowners/ReviewAssigner.java:267-268 | over a collision-free hasher a change id that is no candidate's `id-0` label has no ring entry at its hash |
| StorjAssigner.HandlersAgree | src/main/java/io/storj/gerrit/plugins/codeowners/ReviewAssigner.java:289-346 | a new revision assigns iff a WIP toggle would; only the WIP toggle unassigns; a missing change is ignored; a comment assigns iff it contains `autoassign` |
| StorjAssigner.Assigner.constructor | src/main/java/io/storj/gerrit/plugins/codeowners/ReviewAssigner.java:53 | a new assigner holds the given services and an empty cache |
| StorjAssigner.Assigner.StoreKeepsAnswers | src/main/java/io/storj/gerrit/plugins/codeowners/ReviewAssigner.java:62-74 | `computeIfAbsent` keeps every earlier answer and stores a key only when the loader finds an account |
| StorjAssigner.Assigner.Lookup | src/main/java/io/storj/gerrit/plugins/codeowners/ReviewAssigner.java:62-74 | the cached answer, else the loader's; a `null` answer is not stored |
| StorjAssigner.Assigner.FindByEmail | src/main/java/io/storj/gerrit/plugins/codeowners/ReviewAssigner.java:205-207 | the answer for `email:` + address |
| StorjAssigner.Assigner.FindByUsername | src/main/java/io/storj/gerrit/plugins/codeowners/ReviewAssigner.java:184-202 | the `username:` answer; on a miss the GitHub e-mail's answer; `null` when the GitHub lookup throws |
| StorjAssigner.Assigner.FindGithubMember | src/main/java/io/storj/gerrit/plugins/codeowners/ReviewAssigner.java:161-182 | the login's answer; on a miss the member e-mail's answer; `null` when reading the e-mail throws |
| StorjAssigner.Assigner.FromTeam | src/main/java/io/storj/gerrit/plugins/codeowners/ReviewAssigner.java:130-154 | fails with `IOException`, the cache untouched, iff the organisation, team or member lookup throws; a missing organisation, missing team or secret team gives nothing; otherwise every member that resolves |
| StorjAssigner.Assigner.FromToken | src/main/java/io/storj/gerrit/plugins/codeowners/ReviewAssigner.java:104-154 | fails iff the token throws: `StringIndexOutOfBoundsException` for a leading `/`, `IOException` for a team lookup that throws; otherwise the ids the token resolves to along its route |
| StorjAssigner.Assigner.OwnersOf | src/main/java/io/storj/gerrit/plugins/codeowners/ReviewAssigner.java:99-102 | the union of `ownersFor` over the changed files |
| StorjAssigner.Assigner.IdsOfAdd | src/main/java/io/storj/gerrit/plugins/codeowners/ReviewAssigner.java:104-155 | the ids of one more token are added to the ids of the others |
| StorjAssigner.Assigner.TokenIdsAgree | src/main/java/io/storj/gerrit/plugins/codeowners/ReviewAssigner.java:104-154 | a cache that only gained answers resolves every token the same way |
| StorjAssigner.Assigner.MemberIdAgrees | src/main/java/io/storj/gerrit/plugins/codeowners/ReviewAssigner.java:148-154 | a cache that only gained answers resolves every team member the same way |
| StorjAssigner.Assigner.MemberIdsSnoc | src/main/java/io/storj/gerrit/plugins/codeowners/ReviewAssigner.java:148-154 | the ids of one more member are those of the others plus its own, when it resolves |
| StorjAssigner.Assigner.AllOwnersAdd | src/main/java/io/storj/gerrit/plugins/codeowners/ReviewAssigner.java:99-102 | the owners of one more file are those of the others plus its own |
| StorjAssigner.Assigner.ResolveTokens | src/main/java/io/storj/gerrit/plugins/codeowners/ReviewAssigner.java:104-157 | fails iff some token throws (a leading `/` or a team lookup that throws), with the exception of one such token; otherwise the ids of all tokens |
| StorjAssigner.Assigner.FromCodeOwners | src/main/java/io/storj/gerrit/plugins/codeowners/ReviewAssigner.java:96-158 | the ids of the owners of all changed files, each distinct token resolved once; fails iff one of those tokens throws, with that token's exception |
| StorjAssigner.Assigner.TopUpSpec | src/main/java/io/storj/gerrit/plugins/codeowners/ReviewAssigner.java:219-227 | `fromGit` never removes a candidate and never adds the owner; it adds only resolved authors; it stops at `requiredCount` or when the log ends |
| StorjAssigner.Assigner.FromGit | src/main/java/io/storj/gerrit/plugins/codeowners/ReviewAssigner.java:209-230 | the loop's result is the top-up of the candidates from the authors, keyed by bare e-mail |
| StorjAssigner.Assigner.AuthorIdsCons | src/main/java/io/storj/gerrit/plugins/codeowners/ReviewAssigner.java:219-227 | the resolved authors of a log are the first author's id, when it resolves and is not the owner, plus those of the rest |
| StorjAssigner.Assigner.TopUpAgrees | src/main/java/io/storj/gerrit/plugins/codeowners/ReviewAssigner.java:223 | a cache that only gained answers gives the same top-up |
| StorjAssigner.Assigner.CandidatesCases | src/main/java/io/storj/gerrit/plugins/codeowners/ReviewAssigner.java:248-261 | the candidates are the owners' ids without the change owner, topped up from history only when fewer than the count and history is enabled |
| StorjAssigner.Assigner.CandidatesSpec | src/main/java/io/storj/gerrit/plugins/codeowners/ReviewAssigner.java:248-261 | the change owner is never a candidate, and every other owner id is |
| StorjAssigner.Assigner.WithHistory | src/main/java/io/storj/gerrit/plugins/codeowners/ReviewAssigner.java:249-261 | removing the owner and the history top-up give exactly the candidates |
| StorjAssigner.Assigner.Gather | src/main/java/io/storj/gerrit/plugins/codeowners/ReviewAssigner.java:248-261 | the candidates of `assign`, which never hold the change owner; fails iff an owner token throws, with that token's exception |
| StorjAssigner.Assigner.Pick | src/main/java/io/storj/gerrit/plugins/codeowners/ReviewAssigner.java:263-268 | the reviewers are `getNodes(change.id, count)` on a ring `fromElements` builds over the candidates' ids as text at weight 1; they are distinct, never the owner, at most `count` and at most the candidates; over a collision-free hasher, with the id no candidate's `id-0` label, exactly `min(count, candidates)` |
| StorjAssigner.Assigner.OwnerNotNamed | src/main/java/io/storj/gerrit/plugins/codeowners/ReviewAssigner.java:267 | the owner, not being a candidate, has no node name on the ring |
| StorjAssigner.Assigner.NamedCandidates | src/main/java/io/storj/gerrit/plugins/codeowners/ReviewAssigner.java:267 | the names the ring is built from are exactly the texts of the candidate ids |
| StorjAssigner.Assigner.NamesDistinct | src/main/java/io/storj/gerrit/plugins/codeowners/ReviewAssigner.java:267 | the texts of distinct account ids are distinct, so the ring gets one node per candidate |
| StorjAssigner.Assigner.AssignReviewers | src/main/java/io/storj/gerrit/plugins/codeowners/ReviewAssigner.java:232-287 | no `CODEOWNERS` does nothing; a file that does not parse is reported, and so is an owner token that throws (a leading `/` or a throwing team lookup), with its exception; otherwise the ring lookup `getNodes(change.id, Count(pool, missing))` over the candidate pool: distinct, never the owner, no more than are missing, and exactly `Count(pool, missing)` under `Pick`'s side condition |
| MjpitzAssigner.RouteCases | src/main/java/com/mjpitz/gerrit/plugins/codeowners/ReviewAssigner.java:115-140 | a token without `@` is an e-mail, `@name` without `/` a user, `@org/team` a team split at the first `/` |
| MjpitzAssigner.ReviewerStatesCounted | src/main/java/com/mjpitz/gerrit/plugins/codeowners/ReviewAssigner.java:193 | three reviewers in one state count as one: the code still asks for one more reviewer against a count of 2 |
| MjpitzAssigner.Min | src/main/java/com/mjpitz/gerrit/plugins/codeowners/ReviewAssigner.java:207 | `Math.min` is the smaller argument |
| MjpitzAssigner.RequestFillsUp | src/main/java/com/mjpitz/gerrit/plugins/codeowners/ReviewAssigner.java:193-207 | with the corrected count, the change never goes past the reviewer count and reaches it when there are candidates enough |
| MjpitzAssigner.OnWorkInProgressStateChanged | src/main/java/com/mjpitz/gerrit/plugins/codeowners/ReviewAssigner.java:227-248 | assign iff the change is neither WIP nor private |
| MjpitzAssigner.Assigner.constructor | src/main/java/com/mjpitz/gerrit/plugins/codeowners/ReviewAssigner.java:53 | a new assigner holds the given services and an empty cache |
| MjpitzAssigner.Assigner.Load | src/main/java/com/mjpitz/gerrit/plugins/codeowners/ReviewAssigner.java:66-82 | the first account's id as text when the query finds one, else `null` |
| MjpitzAssigner.Assigner.StoreKeepsAnswers | src/main/java/com/mjpitz/gerrit/plugins/codeowners/ReviewAssigner.java:66-82 | `compute` with this loader keeps every earlier answer and stores a key only when it resolves |
| MjpitzAssigner.Assigner.Lookup | src/main/java/com/mjpitz/gerrit/plugins/codeowners/ReviewAssigner.java:66-82 | the cached answer, else the loader's; a `null` answer leaves the key unmapped |
| MjpitzAssigner.Assigner.HoldsSize | src/main/java/com/mjpitz/gerrit/plugins/codeowners/ReviewAssigner.java:200-207 | the ring's size is the number of distinct names it holds |
| MjpitzAssigner.Assigner.SameNamesSameChoice | src/main/java/com/mjpitz/gerrit/plugins/codeowners/ReviewAssigner.java:205-210 | over a collision-free hasher, rings holding the same accounts choose the same reviewers for a change, whatever order they were added in |
| MjpitzAssigner.Assigner.AddNode | src/main/java/com/mjpitz/gerrit/plugins/codeowners/ReviewAssigner.java:119-122 | `withNode` on a resolved name; re-adding a name leaves the size unchanged |
| MjpitzAssigner.Assigner.AddLogins | src/main/java/com/mjpitz/gerrit/plugins/codeowners/ReviewAssigner.java:143-152 | every team member that resolves by login is added |
| MjpitzAssigner.Assigner.AddToken | src/main/java/com/mjpitz/gerrit/plugins/codeowners/ReviewAssigner.java:115-152 | one owner token's names are added along its route |
| MjpitzAssigner.Assigner.OwnersOf | src/main/java/com/mjpitz/gerrit/plugins/codeowners/ReviewAssigner.java:110-113 | the union of `ownersFor` (last match) over the changed files |
| MjpitzAssigner.Assigner.NamesOfAdd | src/main/java/com/mjpitz/gerrit/plugins/codeowners/ReviewAssigner.java:115-153 | the names of one more token are added to those of the others |
| MjpitzAssigner.Assigner.TokenNamesAgree | src/main/java/com/mjpitz/gerrit/plugins/codeowners/ReviewAssigner.java:115-152 | a cache that only gained answers resolves every token the same way |
| MjpitzAssigner.Assigner.LoginNamesAgree | src/main/java/com/mjpitz/gerrit/plugins/codeowners/ReviewAssigner.java:143-152 | a cache that only gained answers resolves every team login the same way |
| MjpitzAssigner.Assigner.LoginNamesSnoc | src/main/java/com/mjpitz/gerrit/plugins/codeowners/ReviewAssigner.java:143-152 | the names of one more login are those of the others plus its own, when it resolves |
| MjpitzAssigner.Assigner.AllOwnersAdd | src/main/java/com/mjpitz/gerrit/plugins/codeowners/ReviewAssigner.java:110-113 | the owners of one more file are those of the others plus its last-match owners |
| MjpitzAssigner.Assigner.RingOf | src/main/java/com/mjpitz/gerrit/plugins/codeowners/ReviewAssigner.java:115-155 | fails iff a team lookup throws or finds no team; otherwise a ring holding exactly the resolved names |
| MjpitzAssigner.Assigner.FromCodeOwners | src/main/java/com/mjpitz/gerrit/plugins/codeowners/ReviewAssigner.java:107-156 | the ring of the resolved owners of all changed files, with the same failure |
| MjpitzAssigner.Assigner.TopUpSpec | src/main/java/com/mjpitz/gerrit/plugins/codeowners/ReviewAssigner.java:168-176 | `fromGit` only adds resolved authors (the owner is not excluded) and stops at the count or when the log ends |
| MjpitzAssigner.Assigner.FromGit | src/main/java/com/mjpitz/gerrit/plugins/codeowners/ReviewAssigner.java:158-179 | the loop's ring holds exactly the top-up of the names, keyed by bare e-mail |
| MjpitzAssigner.Assigner.AuthorNamesCons | src/main/java/com/mjpitz/gerrit/plugins/codeowners/ReviewAssigner.java:168-176 | the resolved authors of a log are the first author's name, when it resolves, plus those of the rest |
| MjpitzAssigner.Assigner.TopUpAgrees | src/main/java/com/mjpitz/gerrit/plugins/codeowners/ReviewAssigner.java:172 | a cache that only gained answers gives the same top-up |
| MjpitzAssigner.Assigner.AssignReviewers | src/main/java/com/mjpitz/gerrit/plugins/codeowners/ReviewAssigner.java:181-225 | no `CODEOWNERS` throws; nothing when no reviewer is missing; otherwise the wrapped ring lookup for `change.id` on a ring holding exactly the pool, asking for `min(pool, missing)`: that many distinct reviewers from the pool, never past the count |

## Left out

- **MD5 hasher:** the MD5 `Hasher` body is left out, and the ring hasher is a parameter. The MD5-specific expectations of the ring tests cannot be restated.
- **External services:** `FastIgnoreRule` glob matching is the `matches` parameter. Gerrit's account query, the GitHub lookups and the JGit log walk are oracles. The review submission and `ReviewResult` error logging are left out, and so is all logging.
- **Wiring and I/O:** the `Module` wiring is left out, as are `JgitWrapper` (the three blob paths become one optional list of lines) and `OrgInstanceAuthorizationProvider`. Reading files and splitting lines with `BufferedReader` are left out too.
- **Concurrency:** `ConcurrentHashMap` thread safety is not modelled; the cache is a single-threaded `map`.
- **Unicode:** strings are sequences of Dafny `char`, which are Unicode scalar values, not Java's UTF-16 code units. `JavaStrings.Less` compares them by scalar value. `String.compareTo` compares UTF-16 code units, so it puts a character above U+FFFF (a surrogate pair, U+D800 to U+DFFF) below the characters U+E000 to U+FFFF. The model orders those the other way. Ring keys and account names are not modelled as UTF-16 text.
- **Team member order:** GitHub team members are sorted by login in the source. The team oracle hands the logins over already in that order.
- **`HashSet` iteration order:** the order over owner tokens and candidate ids is left arbitrary (`ToSeq`, `OwnersOf`). Every result is proved for any order.
- **`unassign`** is a no-op in the source (a `TODO`), so it is modelled only as the `Unassign` action.
- **Test examples resting on the oracles:** the `{1,2,3}` result of `ReviewAssignerTest` and the `ownersFor` examples of `ConfigTest` depend on the mocked GitHub/Gerrit and on gitignore matching. They are not restated.
- StorjAssigner.Assigner.Pick: the result is the lookup on *some* ring that `fromElements` can build over the candidates, because the `HashSet` order is left arbitrary. `SameCandidatesSameChoice` shows that all those rings choose alike only over a collision-free hasher. The exact count `min(count, candidates)` is promised only for a collision-free hasher and a change id that is no candidate's `id + "-0"` label. Otherwise an entry sitting at the needle is skipped, and fewer reviewers can come back.
- StorjAssigner.Assigner.AssignReviewers: uses the corrected `Count` (see Findings) in place of the possibly negative `Math.min`. Its exact count has the same side condition as `Pick`.
- MjpitzAssigner.Assigner.AssignReviewers: requires an injective hasher (`Collisionless`), because the source's `getNodes` loops forever when colliding replicas leave a node without an entry. It uses the corrected `Missing` and `GetNodesWrapped` (see Findings). A parse failure and a `null` reviewer map are reported as failures; the source throws on both.
- JavaStrings.ParseInt: accepts only the ASCII digits `0` to `9`. `Integer.parseInt`, which reads the older file's reviewer-count directive, also accepts every other Unicode decimal digit (through `Character.digit`), so such a count is a parse failure here. The newer file's directive is matched by `\d`, which is ASCII only, and is not affected.
- StorjAssigner.Assigner.FromGit: the log is given as its author e-mails, so the `GitAPIException` that `logCommand.call()` can throw is not modelled. In the source it aborts `assign`, and the handlers log it.
- MjpitzAssigner.Assigner.FromGit: the same holds for the `GitAPIException` of its `logCommand.call()`.
- MjpitzRing.GetNodes: requires `Terminates`. On the remaining inputs the source's loop never ends, and those inputs are not modelled.
- MjpitzRing.RemoveUnchosen: is stated for the corrected lookup, which the assigner uses. With the code as written, a removal can also empty the tail.

## Findings

| source | as written | input that shows it | evidently intended | confidence | as-written member | corrected member |
|---|---|---|---|---|---|---|
| src/main/java/com/mjpitz/gerrit/plugins/codeowners/HashRing.java:116-117 | the scan starts on `tailMap(needle, false)`; when that view is empty the loop never runs and nothing is returned | identity hasher, one node `ccc` (entry `ccc-0`), `getNodes("ddd", 1)` returns the empty set | wrap round to the head of the ring, so that a needle past the last entry still finds nodes | not executed | MjpitzRing.TailEmptyCounterexample | MjpitzRing.WrappedSelectionFull |
| src/main/java/io/storj/gerrit/plugins/codeowners/ReviewAssigner.java:256-264 | `numberToAssign = min(candidates, reviewerCount - existing)` can be negative, and `getNodes` with a negative size returns every reachable node | reviewer count 2, three REVIEWER-state reviewers, two candidates: `numberToAssign == -1` and both candidates are added | assign nobody when the change already has enough reviewers | not executed | StorjAssigner.SurplusReviewersAssignAll | StorjAssigner.CountNeverExceedsMissing |
| src/main/java/com/mjpitz/gerrit/plugins/codeowners/ReviewAssigner.java:193 | `change.reviewers.size()` counts reviewer states (map keys), not reviewers | reviewer count 2, reviewers `{REVIEWER: [1,2,3]}`: missing is computed as 1 and one more reviewer is requested | subtract the number of REVIEWER-state accounts, as the newer generation does | not executed | MjpitzAssigner.ReviewerStatesCounted | MjpitzAssigner.RequestFillsUp |

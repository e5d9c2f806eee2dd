# reparser in Dafny

A model of `reparser`, a regex-driven lexer/parser for inline markup, and
of its Markdown layer. It is written in Dafny and has proofs of its
behaviour.

The engine takes a list of `Token`s. Each token has a start pattern, an
optional end pattern, and a bag of attributes (`params`). It builds:

- a compound regex whose alternatives are wrapped in the groups
  `<name>_start` and `<name>_end`;
- a table from those group names back to the token and its role (start,
  end or single).

It then scans the regex's matches over a text, keeping a stack of the
open paired tokens. It yields `Segment`s:

- the literal text between matches, carrying the attributes of the
  tokens open there;
- one segment per single-token match, whose `MatchGroup` placeholders are
  resolved from the match's captures.

A skip token (for code spans) suppresses every match inside its region
until its own end.

The Markdown layer wraps the loose `MarkdownTag`s into one
`MarkdownGroup` token. It builds the group's two alternations, common and
skip, from the tags' spellings. When a group fires, the layer maps the
match back to the tag spelled by the matched text, and it turns the
second delimiter of an open skip tag into an end. Its postprocessing
collapses runs of spaces.

Modules, one per file:

- `Values` (values.dfy): attribute values, either a plain `Literal` or a
  `Deferred` capture placeholder with an optional transform.
- `Tokens` (tokens.dfy):
  - `Token` and its group naming;
  - `Match`, the regex library's report of one match, taken as input;
  - capture resolution (`MatchGroup`);
  - `Segment`.
- `TokenStacks` (token_stack.dfy): the class `TokenStack` over a
  `seq<Entry>`, plus the functions that specify it (merge of attribute
  bags, removal of the occurrence nearest the top, the skip test).
- `Parsers` (parser.dfy):
  - `build_groups` and `build_regex` as loops proved against `GroupsOf`
    and `RegexList`;
  - the scan as a `Step`/`Run` specification;
  - `parse` as a loop over a `TokenStack`, proved equal to that
    specification.
- `ParserProperties` (parser_lemmas.dfy): what the scan does to each
  kind of match, the text the output covers, skip regions, balanced
  pairs, the stack discipline, and scenarios from the repository's tests.
- `Markdown` (markdown.dfy):
  - tags and the `MarkdownGroup` table;
  - the assembly of the alternations;
  - wrapping and unique naming;
  - the reclassification in `get_matched_token`;
  - `postprocess`.

Modelling choices:

- Python object identity (`is`) is a natural-number `id` on tokens and
  tags. The stack holds `Entry(id, skip, params)`, which is what is read
  of a token or a tag once it is open.
- Regex matching is not modelled. `parse` receives the list of matches
  `finditer` would produce. Each match gives:
  - the group that fired;
  - its span;
  - the text it matched;
  - its captures, as a map where a missing name does not exist and
    `None` means the group took no part in the match.

  `Fits`/`Scannable` state what the regex library guarantees: the fired
  group is one of the compound regex's groups, and the span lies within
  the text. `RegexGroupsAgree` proves that every alternative's group is a
  key of the table.
- Pattern strings are kept symbolic. `Pattern = NamedGroup(group, prefix,
  body)` stands for `(?P<group>body)` with `body`'s named groups
  prefixed by `prefix_`.
- The scan's exceptions are values. An end-match that meets an empty
  stack reaches `remove_token`, which reads the top of an empty list, so
  `parse` raises `IndexError`. `parse` then returns `Raised(yielded)`, the
  segments produced before the exception. A text no Markdown tag is
  stored under (`KeyError` in `get_tag`) gives `None`.
- The postprocessing hook of `parse` is a parameter `post`. For the
  Markdown parser it is `Markdown.Collapse`.

Where the code and its documented behaviour differ, the model follows the
code:

- A capture that exists but did not take part in the match gives `None`
  (here `Null`), not `''`. Only a capture name that does not exist at all
  gives `''`.
- The wrapper group's unique name only avoids the names of supplied
  `MarkdownGroup`s. A plain `Token` named `markdown` is not avoided
  (`Markdown.PlainTokenNameNotAvoided`).
- An end-match on an empty stack is not skipped gracefully. The scan
  raises (`ParserProperties.StepEmptyStackCloser`,
  `ParserProperties.StrayCloserExample`).
- The segments do not put the input back together. The delimiter of
  every start and end match is consumed and written into no segment, and
  a single token's own `text` replaces what it matched
  (`ParserProperties.StepText`). "You can **try *this* awesome**" gives
  segments that put together read "You can try this awesome"
  (`ParserProperties.NestedExample`,
  `ParserProperties.NestedDropsDelimiters`).
- A literal segment is built as `Segment(**params)` with the text put in
  as the `text` keyword. So its `params` never hold a `text` key, even
  when an open token declares one (`Parsers.LiteralSegment`).

## Model

| member | source | states |
|---|---|---|
| Tokens.NewToken | reparser/__init__.py:59-84 | the groups are `name_start` and, exactly when the end pattern is truthy, `name_end`; a paired token's start pattern gets the lookahead for its end; id, skip flag and attributes are kept |
| Tokens.GroupNamesDistinct | reparser/__init__.py:68-77 | a start group never equals an end group, and distinct names give distinct start and end groups |
| Tokens.ModifyPattern | reparser/__init__.py:86-93 | the pattern is enclosed in the named group given, with its own groups renamed under the token's name |
| Tokens.GroupValue | reparser/__init__.py:106-117 | the value of capture `tokenname_group`: `''` when that name does not exist, `None` when it took no part, its text otherwise; then passed through the transform when there is one |
| Tokens.Capture | reparser/__init__.py:112-116 | a capture name missing from the match gives `''`; an existing, non-participating capture gives `None`; otherwise its text |
| Tokens.Resolve | reparser/__init__.py:106-117 | a placeholder becomes the (transformed) value of capture `tokenname_group`; a plain value is kept |
| Tokens.ResolveIdempotent | reparser/__init__.py:43-54 | a resolved value resolves to itself against any later token and match |
| Tokens.ResolveReadsOneCapture | reparser/__init__.py:113 | resolution depends only on the one capture the placeholder names |
| Tokens.ResolveParams | reparser/__init__.py:46-54 | every key is kept, plain values are unchanged, and each placeholder becomes the (transformed) value of its capture |
| Tokens.NewSegment | reparser/__init__.py:24-35 | without a token and a match, text and attributes are kept as given; with both, the text is resolved against them and the attributes become `ResolveParams` of the bag, keys kept |
| Tokens.UpdateParams | reparser/__init__.py:46-54 | the loop over the bag replaces each placeholder by its resolved value and keeps the rest, giving `ResolveParams` |
| TokenStacks.Merge | reparser/__init__.py:132-137 | no open token gives an empty bag; every key of an open token is in force; the innermost token's values win |
| TokenStacks.MergeLookup | reparser/__init__.py:132-137 | an attribute is in force exactly when some open token declares it, and its value is the innermost declarer's |
| TokenStacks.MergeNested | reparser/__init__.py:132-137 | keys from an outer and from an inner token accumulate, each with its own value |
| TokenStacks.LastIndex | reparser/__init__.py:146-150 | the index of the occurrence nearest the top: it holds the id and no later entry does; `None` when no entry holds it |
| TokenStacks.RemoveAt | reparser/__init__.py:146-154 | the list without one element, the others in their order |
| TokenStacks.Close | reparser/__init__.py:139-154 | `None` exactly when the token is not on the stack; otherwise the stack without its occurrence nearest the top |
| TokenStacks.CloseTop | reparser/__init__.py:141-143 | closing the token on top pops it |
| TokenStacks.Skips | reparser/__init__.py:160-174 | the full truth table: empty stack or non-skip top gives false; a skip top that is the same token gives true unless the match is an end; a different token gives true |
| TokenStacks.TokenStack.constructor | reparser/__init__.py:129-130 | the stack starts empty |
| TokenStacks.TokenStack.AddToken | reparser/__init__.py:156-158 | the entry is appended as the new top and nothing else changes |
| TokenStacks.TokenStack.RemoveToken | reparser/__init__.py:139-154 | on a non-empty stack, returns true exactly when the token is on it; then removes exactly its occurrence nearest the top, keeping the rest in order; otherwise the stack is unchanged |
| TokenStacks.TokenStack.GetParams | reparser/__init__.py:132-137 | the loop's result is the outer-to-inner merge `Merge` of the open tokens' bags |
| TokenStacks.TokenStack.SkipToken | reparser/__init__.py:160-174 | true exactly when the stack is not empty, its top is a skip token, and the match is not that same token's end |
| TokenStacks.TokenStack.GetLastToken | reparser/markdown.py:172-175 | the top entry, or the `IndexError` (`None`) exactly when the stack is empty |
| Parsers.AddGroupsKeeps | reparser/__init__.py:219-225 | adding a token with another name keeps an earlier token's registrations |
| Parsers.GroupsOfKeys | reparser/__init__.py:214-225 | the table's keys are exactly the group names of the tokens |
| Parsers.GroupsOfLookup | reparser/__init__.py:214-225 | with distinct names, each token's start group maps to (token, start or single) and its end group to (token, end) |
| Parsers.RegexListMembers | reparser/__init__.py:206-210 | every alternative of the compound regex comes from one of the tokens |
| Parsers.RegexGroupsAgree | reparser/__init__.py:203-225 | the group of every alternative is a key of the table, whose entry is the token that contributed it |
| Parsers.BuildGroups | reparser/__init__.py:214-225 | the loop builds the table `GroupsOf`, token by token in order |
| Parsers.BuildRegex | reparser/__init__.py:202-211 | the loop lists each token's start pattern, then its end pattern, in order (`RegexList`) |
| Parsers.NewParser | reparser/__init__.py:179-185 | the parser keeps its tokens, their alternatives and their group table |
| Parsers.LiteralSegment | reparser/__init__.py:266-270 | a literal segment's text is the given text; its attributes are the bag in force without the `text` key, values unchanged |
| Parsers.SingleSegment | reparser/__init__.py:275-279 | a single token's segment: the token's attributes override the open ones, its own `text` replaces the matched text when it has one, everything is resolved, and no `text` key remains among the attributes |
| Parsers.BuildSingle | reparser/__init__.py:276-279 | copying the bag, putting the matched text in, updating with the token's bag and resolving gives `SingleSegment` |
| Parsers.Gap | reparser/__init__.py:264-270 | at most one segment, present exactly when the match starts after `last_pos`; it holds the postprocessed text in between, with the bag given |
| Parsers.Trailing | reparser/__init__.py:284-288 | at most one segment, present exactly when text remains after `last_pos`; it holds the postprocessed rest with the bag of the tokens still open |
| Parsers.ParseSpec | reparser/__init__.py:236-288 | with no match, the whole text is one literal segment without attributes, and an empty text gives no segment |
| Parsers.Consume | reparser/__init__.py:263-282 | after an accepted match, `last_pos` still lies within the text |
| Parsers.Step | reparser/__init__.py:246-282 | one iteration keeps `last_pos` within the text; what it does to each kind of match is stated by the Step lemmas |
| Parsers.Run | reparser/__init__.py:246-282 | the loop keeps `last_pos` within the text |
| Parsers.Parse | reparser/__init__.py:236-288 | the loop over the matches with a `TokenStack` yields exactly `ParseSpec`: its segments, or `Raised` with the ones yielded before the `IndexError` |
| ParserProperties.StepIgnored | reparser/__init__.py:251-261 | a suppressed match, or an end-match whose token is not open on a non-empty stack, leaves stack, `last_pos` and output unchanged |
| ParserProperties.StepEmptyStackCloser | reparser/__init__.py:139-141 | an end-match on an empty stack is not suppressed and makes the scan raise |
| ParserProperties.StepAccepted | reparser/__init__.py:251-282 | an accepted match emits the gap text only when it is not empty, with the bag from before the stack changed; start pushes, end removes the nearest occurrence, single emits its segment; `last_pos` becomes the match end |
| ParserProperties.StepText | reparser/__init__.py:263-282 | an accepted match adds to the output's text only the postprocessed text since `last_pos` and, for a single token, its segment's text; the delimiter of a start or end is never written |
| ParserProperties.RunAppend | reparser/__init__.py:246-282 | scanning `a + b` is scanning `a`, then `b` from where it left off, and a raise in `a` ends the scan |
| ParserProperties.SkipRegionSuppresses | reparser/__init__.py:254-255 | inside an open skip region, matches other than its own end leave the state unchanged |
| ParserProperties.SkipRegionCloses | reparser/__init__.py:254-282 | a skip region's whole content becomes one literal text with the bag in force, and its end closes it |
| ParserProperties.BalancedPair | reparser/__init__.py:251-282 | outside a skip region, a start/end pair emits the text before it with the outer bag and the enclosed text with the token's attributes on top, and restores the stack |
| ParserProperties.RunKeepsOpenedFrom | reparser/__init__.py:258-274 | every stack entry was pushed by a start group, and the scan keeps this |
| ParserProperties.StartGroupsArePaired | reparser/__init__.py:219-224 | only paired tokens have a start-role group in the table |
| ParserProperties.PairedTokenGroups | reparser/__init__.py:76-82 | a token with a non-empty end pattern is paired, with groups `name_start` and `name_end` |
| ParserProperties.GroupsOfTwoPaired | reparser/__init__.py:218-225 | the table of two paired tokens holds exactly their four groups with their roles |
| ParserProperties.BoldItalicTable | tests/test_example.py:32-34 | `build_groups` on the bold and italic tokens gives their four-group table |
| ParserProperties.NestedExample | tests/test_example.py:49-68 | "You can **try *this* awesome**" gives `You can `, then `try ` bold, `this` bold and italic, ` awesome` bold |
| ParserProperties.NestedDropsDelimiters | reparser/__init__.py:263-282 | the segments of "You can **try *this* awesome**" put together give "You can try this awesome", not the input |
| ParserProperties.ItalicCodeTable | tests/test_example.py:34-38 | `build_groups` on the italic and backtick tokens gives their table |
| ParserProperties.SkipExample | tests/test_example.py:71-90 | inside a backtick region the stars are not interpreted: "`*skip*`" gives one plain segment `*skip*` |
| ParserProperties.UnterminatedExample | reparser/__init__.py:284-288 | with no match, the whole text is one trailing segment without attributes |
| ParserProperties.GroupsOfOneSingle | reparser/__init__.py:223-224 | a single token's table holds only its start group, as single |
| ParserProperties.LinkExample | tests/test_example.py:41-65 | a link token yields one segment whose text is the `link` capture and whose target is the transformed `url` capture |
| ParserProperties.StrayCloserExample | reparser/__init__.py:258-259 | an end delimiter with nothing open makes the scan raise before yielding anything |
| Markdown.Unescape | reparser/markdown.py:65 | the table key is never longer than the spelling |
| Markdown.UnescapeEscape | reparser/markdown.py:65 | a spelling that escapes every star of a delimiter is stored under the delimiter itself |
| Markdown.UnescapePlain | reparser/markdown.py:65 | a spelling without an escaped star is its own key |
| Markdown.TagTable | reparser/markdown.py:63-65 | every tag's unescaped spelling is a key; each key holds one of the tags, spelled to that key; the last tag is stored under its key |
| Markdown.BuildTagTable | reparser/markdown.py:63-65 | the loop over the tags builds exactly `TagTable` |
| Markdown.TagTableLookup | reparser/markdown.py:63-65 | a key is in the table exactly when some tag is stored under it, and it holds the last such tag |
| Markdown.LastWithKey | reparser/markdown.py:63-65 | the last tag stored under a key, and no later tag has that key; `None` when none has |
| Markdown.Join | reparser/markdown.py:67-74 | no parts give `''`; the join starts with the first part, followed by the separator when there are more |
| Markdown.JoinEmpty | reparser/markdown.py:67-74 | a join is empty (falsy) exactly when there are no parts, or one empty part |
| Markdown.SplitJoin | reparser/markdown.py:67-74 | joining parts without `|` loses neither a part nor their order: splitting gives them back |
| Markdown.Chars | reparser/markdown.py:67-74 | an alternation has no more parts than tags, and is empty exactly when no tag has that skip flag |
| Markdown.CharsAppend | reparser/markdown.py:67-74 | the alternations keep declaration order |
| Markdown.CharsPartition | reparser/markdown.py:67-74 | every tag lands in exactly one of the two alternations |
| Markdown.CommonEnd | reparser/markdown.py:25 | the common end pattern holds the alternation verbatim inside its group, after the lookbehind |
| Markdown.CommonStart | reparser/markdown.py:26-32 | the common start pattern holds the alternation verbatim in group `tag`, after the left boundary and the lookbehind |
| Markdown.SkipEnd | reparser/markdown.py:33 | the skip end pattern holds the alternation verbatim inside its group, after the lookbehind |
| Markdown.SkipStart | reparser/markdown.py:34-38 | the skip start pattern holds the alternation verbatim in group `skip_tag`, after the lookbehind |
| Markdown.Halves | reparser/markdown.py:76-101 | one half per non-empty alternation, the common half first and the skip half last |
| Markdown.HalvesCases | reparser/markdown.py:76-106 | start and end patterns join the common half before the skip half, each included only when its alternation is not empty |
| Markdown.MakeGroup | reparser/markdown.py:57-108 | the group token is valid with the given id, name, skip flag and attributes; its table is `TagTable`; it is paired exactly when its end pattern is not empty |
| Markdown.GroupPaired | reparser/markdown.py:79-108 | the group is paired exactly when one of its alternations is not empty |
| Markdown.NoTagsSingle | reparser/markdown.py:76-108 | a group without tags is a single token |
| Markdown.SomeTagPaired | reparser/markdown.py:79-108 | one tag with a non-empty spelling makes the group paired |
| Markdown.EndPatternEmpty | reparser/markdown.py:76-106 | the end pattern is empty exactly when both alternations are |
| Markdown.NewMarkdownGroup | reparser/markdown.py:57-108 | the constructor's loops build exactly `MakeGroup` |
| Markdown.GetTag | reparser/markdown.py:110-115 | the tag stored under the key, or the `KeyError` (`None`) exactly when no tag is |
| Markdown.GetTagFinds | reparser/markdown.py:63-65 | a tag is found under its unescaped spelling, and under the literal delimiter its spelling escapes, unless a later tag has the same key |
| Markdown.GetTagMisses | reparser/markdown.py:110-115 | a key no tag is stored under makes `get_tag` fail |
| Markdown.UniqueIndex | reparser/markdown.py:140-142 | the wrapper's name is not taken, and every shorter candidate is |
| Markdown.UniqueIndexLeast | reparser/markdown.py:140-142 | that fewest number of `G`s is unique |
| Markdown.Wrap | reparser/markdown.py:128-152 | tokens and groups keep their order in front; there is one wrapper more exactly when there were loose tags; no loose tag remains |
| Markdown.WrapperGroup | reparser/markdown.py:139-148 | the wrapper wraps the loose tags in order, under a name no supplied group carries, each tag stored under its key |
| Markdown.WrapTags | reparser/markdown.py:124-152 | the constructor's loops give exactly `Wrap` |
| Markdown.PlainTokenNameNotAvoided | reparser/markdown.py:135-142 | a plain token named `markdown` does not change the wrapper's name |
| Markdown.WrapExample | reparser/markdown.py:128-148 | loose tags around a token are pulled out, in order, into one group named `markdown` after it |
| Markdown.UniqueNameExample | reparser/markdown.py:140-142 | with groups `markdown` and `markdownG`, the wrapper is `markdownGG` |
| Markdown.GetMatchedToken | reparser/markdown.py:154-180 | a non-group result is unchanged; a group match gives the tag stored under the matched text (`None` for a `KeyError`), and the type becomes end exactly when the tag is skip and the top of the stack is that same tag, otherwise it is kept |
| Markdown.SkipTagCloses | reparser/markdown.py:171-178 | the second delimiter of an open skip tag comes out as an end, passes `skip_token` and pops the region; as a start it would have been suppressed |
| Markdown.OtherTagSuppressed | reparser/markdown.py:171-180 | inside another tag's skip region the type is kept and the match is suppressed |
| Markdown.TypeKeptOutsideRegion | reparser/markdown.py:171-180 | on an empty stack, or when the top is another tag, the type is kept |
| Markdown.SingleSkipGroup | tests/test_markdown.py:82-95 | with a star tag and a backtick skip tag, the group is paired, its table holds `*` and `` ` ``, and both patterns are the common half then the skip half |
| Markdown.Collapse | reparser/markdown.py:186-190 | the text gets no longer |
| Markdown.CollapseShape | reparser/markdown.py:186-190 | no two spaces in a row remain; the non-space characters (tabs and line breaks included) are kept in order; the first character is kept |
| Markdown.CollapseIsSqueeze | reparser/markdown.py:186-190 | `Collapse` equals the left-to-right pass that drops each space following a written space |
| Markdown.CollapseFixpoint | reparser/markdown.py:186-190 | a text without double spaces is left as it is |
| Markdown.CollapseIdempotent | reparser/markdown.py:186-190 | postprocessing twice is postprocessing once |
| Markdown.CollapseAppend | reparser/markdown.py:186-190 | runs do not cross a non-space: both sides collapse separately |
| Markdown.CollapseExample | tests/test_markdown.py:67-79 | two spaces between words, or before a word, become one |

## Left out

- Regex semantics are not part of this model. That covers what
  `re.compile` and `finditer` match, the lookaround boundary patterns,
  and the `GROUP_REGEX` renaming in `modify_pattern`. All of these belong
  to the `re` library; the matches are an input, and patterns are
  symbolic or opaque strings.
- Parsers.BuildRegex: stops at the list of alternatives. Joining them
  with `|` and compiling them happens in the regex library.
- Transforms in `MatchGroup.func` are abstract functions `Scalar ->
  Scalar`. `callable(func)` is not modelled: a transform is either given
  or absent.
- `parse` is a generator. The model returns the whole sequence, or
  `Raised` with the prefix yielded before the exception. Laziness is not
  modelled.
- `preprocess` is taken as already applied to the text. `postprocess` is
  the parameter `post`.
- `Segment(**kwargs)` can collide on the keywords `token` and `match`.
  The model does not capture such collisions.
- `MarkdownBaseParser` is written against a base class (`BaseParser`)
  that is not part of this model. It calls `super().get_matched_token`
  with a stack and `token_stack.get_last_token()`, and neither exists in
  `reparser/__init__.py`. So:
  - `get_matched_token` is modelled on its own, given the base lookup's
    result;
  - `get_last_token` is assumed to return the top entry and to raise
    `IndexError` on an empty stack;
  - how that base class feeds tags to the scan is not modelled. This
    includes the whitespace the Markdown tests expect to keep inside skip
    regions.
- `MarkdownTag`'s constructor only stores its arguments, so a tag is the
  value `MarkdownTag(id, delim, skip, params)`. The field is named
  `delim` because `char` is a Dafny keyword.
- Tokens.NewToken: builds the patterns with the lookahead text symbolic
  and does not check the regex syntax of the strings.
- Parsers.Step: its own ensures only keeps `last_pos` within the text.
  What one iteration does to each kind of match is stated by
  `ParserProperties.StepIgnored`, `StepAccepted` and `StepEmptyStackCloser`.
- Parsers.Run: its own ensures only keeps `last_pos` within the text. Its
  behaviour is stated by `ParserProperties.RunAppend` and the skip-region
  and balanced-pair lemmas.
- Parsers.Consume: its own ensures only keeps `last_pos` within the text.
  What it emits and pushes is stated by `ParserProperties.StepAccepted`.
- Markdown.Unescape: models `str.replace('\*', '*')` on code points, not
  on the regex meaning of the spelling.
- Packaging (`setup.py`) and the test helpers are not part of this
  model.

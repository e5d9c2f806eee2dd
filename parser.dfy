/** The engine (`Parser`): the group table, the list of alternatives of
    the compound regex, and the scan over the regex's matches. */
module Parsers {
  import opened Values
  import opened Tokens
  import opened TokenStacks

  /** What a fired group stands for: its token and its role. */
  datatype Group = Group(token: Token, kind: MatchType)

  type GroupTable = map<string, Group>

  /** The table entries one token contributes. */
  function AddGroups(g: GroupTable, t: Token): GroupTable
  {
    if t.groupEnd.Some? then
      g[t.groupStart := Group(t, Start)][t.groupEnd.value := Group(t, End)]
    else
      g[t.groupStart := Group(t, Single)]
  }

  /** The table `build_groups` fills, token by token in declaration order. */
  function GroupsOf(tokens: seq<Token>): GroupTable
  {
    if tokens == [] then map[]
    else AddGroups(GroupsOf(tokens[..|tokens| - 1]), tokens[|tokens| - 1])
  }

  /** The alternatives a token contributes: its start pattern, then its
      end pattern when it has one. */
  function PatternsOf(t: Token): seq<Pattern>
  {
    [t.patternStart] + (if t.patternEnd.Some? then [t.patternEnd.value] else [])
  }

  /** The alternatives of the compound regex, in declaration order. */
  function RegexList(tokens: seq<Token>): seq<Pattern>
  {
    if tokens == [] then [] else RegexList(tokens[..|tokens| - 1]) + PatternsOf(tokens[|tokens| - 1])
  }

  predicate AllValid(tokens: seq<Token>)
  {
    forall i :: 0 <= i < |tokens| ==> tokens[i].Valid()
  }

  predicate DistinctNames(tokens: seq<Token>)
  {
    forall i, j :: 0 <= i < j < |tokens| ==> tokens[i].name != tokens[j].name
  }

  /** The table maps each of `t`'s groups back to `t` and its role. */
  ghost predicate Registered(g: GroupTable, t: Token)
  {
    && t.groupStart in g
    && g[t.groupStart] == Group(t, if t.Paired() then Start else Single)
    && (t.Paired() ==> t.groupEnd.value in g && g[t.groupEnd.value] == Group(t, End))
  }

  /** The group names a token owns. */
  function GroupNames(t: Token): set<string>
  {
    {t.groupStart} + (if t.groupEnd.Some? then {t.groupEnd.value} else {})
  }

  /** Adding a token keeps earlier registrations whose names differ. */
  lemma AddGroupsKeeps(g: GroupTable, t: Token, u: Token)
    requires t.Valid() && u.Valid() && t.name != u.name
    requires Registered(g, u)
    ensures Registered(AddGroups(g, t), u)
  {
    GroupNamesDistinct(t.name, u.name);
    GroupNamesDistinct(u.name, t.name);
  }

  /** The group names of all tokens. */
  function AllGroupNames(tokens: seq<Token>): set<string>
  {
    if tokens == [] then {} else AllGroupNames(tokens[..|tokens| - 1]) + GroupNames(tokens[|tokens| - 1])
  }

  /** The keys of the table are exactly the tokens' group names. */
  lemma {:induction false} GroupsOfKeys(tokens: seq<Token>)
    ensures GroupsOf(tokens).Keys == AllGroupNames(tokens)
  {
    if tokens != [] {
      GroupsOfKeys(tokens[..|tokens| - 1]);
    }
  }

  /** With distinct names, `build_groups` registers every token: its start
      group as start (or single), its end group as end. */
  lemma {:induction false} GroupsOfLookup(tokens: seq<Token>, i: nat)
    requires AllValid(tokens) && DistinctNames(tokens)
    requires i < |tokens|
    ensures Registered(GroupsOf(tokens), tokens[i])
  {
    var init, last := tokens[..|tokens| - 1], tokens[|tokens| - 1];
    if i < |init| {
      assert init[i] == tokens[i];
      assert AllValid(init) && DistinctNames(init);
      GroupsOfLookup(init, i);
      assert tokens[i].name != last.name;
      AddGroupsKeeps(GroupsOf(init), last, init[i]);
    } else {
      GroupNamesDistinct(last.name, last.name);
    }
  }

  /** Every alternative of the compound regex comes from some token. */
  lemma {:induction false} RegexListMembers(tokens: seq<Token>, p: Pattern)
    requires p in RegexList(tokens)
    ensures exists i :: 0 <= i < |tokens| && p in PatternsOf(tokens[i])
  {
    var init := tokens[..|tokens| - 1];
    if p in RegexList(init) {
      RegexListMembers(init, p);
      var i :| 0 <= i < |init| && p in PatternsOf(init[i]);
      assert init[i] == tokens[i];
    } else {
      assert p in PatternsOf(tokens[|tokens| - 1]);
    }
  }

  /** The compound regex and the group table agree: the group every
      alternative is wrapped in is a key of the table, and its entry is the
      token that contributed that alternative. So the group that fires in
      any match leads back to its token. */
  lemma RegexGroupsAgree(tokens: seq<Token>, p: Pattern)
    requires AllValid(tokens) && DistinctNames(tokens)
    requires p in RegexList(tokens)
    ensures p.group in GroupsOf(tokens)
    ensures p in PatternsOf(GroupsOf(tokens)[p.group].token)
  {
    RegexListMembers(tokens, p);
    var i :| 0 <= i < |tokens| && p in PatternsOf(tokens[i]);
    GroupsOfLookup(tokens, i);
  }

  /** `build_groups`. */
  method BuildGroups(tokens: seq<Token>) returns (groups: GroupTable)
    ensures groups == GroupsOf(tokens)
  {
    groups := map[];
    for i := 0 to |tokens|
      invariant groups == GroupsOf(tokens[..i])
    {
      assert tokens[..i + 1][..i] == tokens[..i];
      var token := tokens[i];
      if token.groupEnd.Some? {
        groups := groups[token.groupStart := Group(token, Start)];
        groups := groups[token.groupEnd.value := Group(token, End)];
      } else {
        groups := groups[token.groupStart := Group(token, Single)];
      }
    }
    assert tokens[..|tokens|] == tokens;
  }

  /** `build_regex`, up to joining the alternatives with `|` and compiling
      them, which the regex library does. */
  method BuildRegex(tokens: seq<Token>) returns (patterns: seq<Pattern>)
    ensures patterns == RegexList(tokens)
  {
    patterns := [];
    for i := 0 to |tokens|
      invariant patterns == RegexList(tokens[..i])
    {
      assert tokens[..i + 1][..i] == tokens[..i];
      patterns := patterns + [tokens[i].patternStart];
      if tokens[i].patternEnd.Some? {
        patterns := patterns + [tokens[i].patternEnd.value];
      }
    }
    assert tokens[..|tokens|] == tokens;
  }

  /** A parser: its tokens, its compound regex's alternatives and its
      group table, fixed at construction. */
  datatype Parser = Parser(tokens: seq<Token>, regex: seq<Pattern>, groups: GroupTable)

  /** The `Parser` constructor. */
  method NewParser(tokens: seq<Token>) returns (p: Parser)
    ensures p.tokens == tokens
    ensures p.regex == RegexList(tokens)
    ensures p.groups == GroupsOf(tokens)
  {
    var regex := BuildRegex(tokens);
    var groups := BuildGroups(tokens);
    p := Parser(tokens, regex, groups);
  }

  // ------------------------------------------------------------------
  // The scan

  /** What the regex library guarantees of a match: the fired group is one
      of the compound regex's groups, and its span lies within the text. */
  predicate Fits(groups: GroupTable, text: string, m: Match)
  {
    m.group in groups && m.start <= m.end <= |text|
  }

  predicate Scannable(groups: GroupTable, text: string, ms: seq<Match>)
  {
    forall i :: 0 <= i < |ms| ==> Fits(groups, text, ms[i])
  }

  /** The loop's state: the open tokens, the end of the last consumed
      match (`last_pos`), and the segments yielded so far. */
  datatype ScanState = ScanState(stack: seq<Entry>, lastPos: nat, out: seq<Segment>)

  /** The result of a scan: all its segments, or the `IndexError` raised
      after `yielded` had been produced. */
  datatype Outcome = Parsed(segments: seq<Segment>) | Raised(yielded: seq<Segment>)

  const Initial := ScanState([], 0, [])

  /** A segment of literal text, built from the bag in force with its text
      put in as the `text` keyword. */
  function LiteralSegment(s: string, params: Params): (seg: Segment)
    ensures seg.text == Literal(Str(s))
    ensures seg.params.Keys == params.Keys - {"text"}
    ensures forall k :: k in seg.params ==> seg.params[k] == params[k]
  {
    NewSegment(Literal(Str(s)), None, params - {"text"})
  }

  /** The segment of a single token's match: the bag in force, the matched
      text as `text`, then the token's own bag on top, resolved against the
      token and the match. */
  function SingleSegment(t: Token, m: Match, params: Params): (s: Segment)
    ensures s.text == Resolve(if "text" in t.params then t.params["text"] else Literal(Str(m.text)), t.name, m)
    ensures s.params.Keys == (params.Keys + t.params.Keys) - {"text"}
    ensures AllLiteral(s.params)
    ensures forall k :: k in t.params && k != "text" ==> s.params[k] == Resolve(t.params[k], t.name, m)
    ensures forall k :: k in params && k !in t.params && k != "text" ==> s.params[k] == Resolve(params[k], t.name, m)
  {
    var kw := params["text" := Literal(Str(m.text))] + t.params;
    NewSegment(kw["text"], Some(Context(t.name, m)), kw - {"text"})
  }

  /** The literal segment for the text between the last consumed match and
      the start of this one, if that text is not empty. */
  function Gap(text: string, post: string -> string, lastPos: nat, start: nat, params: Params): (r: seq<Segment>)
    requires start <= |text|
    ensures |r| <= 1
    ensures r != [] <==> start > lastPos
    ensures r != [] ==> r[0] == LiteralSegment(post(text[lastPos..start]), params)
  {
    if start > lastPos then [LiteralSegment(post(text[lastPos..start]), params)] else []
  }

  /** The part of an iteration that follows a match's acceptance: the
      literal text before it, then the push (start) or the segment (single),
      then `last_pos` moves to the match's end. `stack` is the stack after
      any removal; `st.stack` gives the bag computed before it. */
  function Consume(text: string, post: string -> string, st: ScanState, stack: seq<Entry>, g: Group, m: Match): (r: ScanState)
    requires m.start <= m.end <= |text|
    ensures r.lastPos <= |text|
  {
    var params := Merge(st.stack);
    var out := st.out + Gap(text, post, st.lastPos, m.start, params);
    ScanState(
      if g.kind == Start then stack + [EntryOf(g.token)] else stack,
      m.end,
      if g.kind == Single then out + [SingleSegment(g.token, m, params)] else out)
  }

  /** One iteration of the loop over the matches. `None` is the
      `IndexError` of an end-match met with an empty stack, which passes
      `skip_token` and then makes `remove_token` read the top of nothing. */
  function Step(groups: GroupTable, text: string, post: string -> string, st: ScanState, m: Match): (r: Option<ScanState>)
    requires Fits(groups, text, m) && st.lastPos <= |text|
    ensures r.Some? ==> r.value.lastPos <= |text|
  {
    var g := groups[m.group];
    var e := EntryOf(g.token);
    if Skips(st.stack, e, g.kind) then Some(st)
    else if g.kind != End then Some(Consume(text, post, st, st.stack, g, m))
    else if st.stack == [] then None
    else match Close(st.stack, e.id)
      case None => Some(st)
      case Some(rest) => Some(Consume(text, post, st, rest, g, m))
  }

  /** The loop state after the remaining matches, or the segments yielded
      before the scan raised. */
  datatype Progress = Running(st: ScanState) | Crashed(yielded: seq<Segment>)

  function Run(groups: GroupTable, text: string, post: string -> string, st: ScanState, ms: seq<Match>): (r: Progress)
    requires Scannable(groups, text, ms) && st.lastPos <= |text|
    ensures r.Running? ==> r.st.lastPos <= |text|
    decreases |ms|
  {
    if ms == [] then Running(st)
    else match Step(groups, text, post, st, ms[0])
      case None => Crashed(st.out)
      case Some(st') => Run(groups, text, post, st', ms[1..])
  }

  /** After the loop: the rest of the text, if any, as one literal segment
      carrying the bag of the tokens still open. */
  function Trailing(text: string, post: string -> string, st: ScanState): (r: seq<Segment>)
    requires st.lastPos <= |text|
    ensures |r| <= 1
    ensures r != [] <==> st.lastPos < |text|
    ensures r != [] ==> r[0] == LiteralSegment(post(text[st.lastPos..]), Merge(st.stack))
  {
    if st.lastPos < |text| then [LiteralSegment(post(text[st.lastPos..]), Merge(st.stack))] else []
  }

  /** What `parse` yields for the matches of the compound regex over `text`
      (already preprocessed), with `post` as the postprocessing hook. */
  function ParseSpec(groups: GroupTable, text: string, ms: seq<Match>, post: string -> string): (r: Outcome)
    requires Scannable(groups, text, ms)
    ensures ms == [] ==> r == Parsed(if text == [] then [] else [LiteralSegment(post(text), map[])])
  {
    assert text[0..] == text;
    assert ms == [] ==> Run(groups, text, post, Initial, ms) == Running(Initial);
    assert Trailing(text, post, Initial) == if text == [] then [] else [LiteralSegment(post(text), map[])];
    assert Initial.out + Trailing(text, post, Initial) == Trailing(text, post, Initial);
    match Run(groups, text, post, Initial, ms)
    case Crashed(y) => Raised(y)
    case Running(st) => Parsed(st.out + Trailing(text, post, st))
  }

  /** The segment `parse` yields for a single token: the bag in force,
      the matched text as `text`, the token's bag on top, then `Segment`
      resolves it against the token and the match. */
  method BuildSingle(t: Token, m: Match, params: Params) returns (seg: Segment)
    ensures seg == SingleSegment(t, m, params)
  {
    var kw := params["text" := Literal(Str(m.text))] + t.params;
    var resolved := UpdateParams(kw - {"text"}, t.name, m);
    seg := Segment(Resolve(kw["text"], t.name, m), resolved);
  }

  /** `parse`. */
  method Parse(p: Parser, text: string, matches: seq<Match>, post: string -> string) returns (o: Outcome)
    requires Scannable(p.groups, text, matches)
    ensures o == ParseSpec(p.groups, text, matches, post)
  {
    var stack := new TokenStack();
    var lastPos: nat := 0;
    var out: seq<Segment> := [];
    var i := 0;
    while i < |matches|
      invariant 0 <= i <= |matches|
      invariant lastPos <= |text|
      invariant Run(p.groups, text, post, ScanState(stack.data, lastPos, out), matches[i..])
             == Run(p.groups, text, post, Initial, matches)
    {
      ghost var st := ScanState(stack.data, lastPos, out);
      var m := matches[i];
      assert Fits(p.groups, text, m);
      assert matches[i..][0] == m && matches[i..][1..] == matches[i + 1..];
      var g := p.groups[m.group];
      var entry := EntryOf(g.token);
      var params := stack.GetParams();
      if stack.SkipToken(entry, g.kind) {
        assert Step(p.groups, text, post, st, m) == Some(st);
        i := i + 1;
        continue;
      }
      if g.kind == End {
        if stack.data == [] {
          // remove_token reads the top of an empty stack: IndexError
          assert Step(p.groups, text, post, st, m).None?;
          return Raised(out);
        }
        var removed := stack.RemoveToken(entry);
        if !removed {
          assert Step(p.groups, text, post, st, m) == Some(st);
          i := i + 1;
          continue;
        }
      }
      ghost var next := Consume(text, post, st, stack.data, g, m);
      assert Step(p.groups, text, post, st, m) == Some(next);
      if m.start > lastPos {
        out := out + [LiteralSegment(post(text[lastPos..m.start]), params)];
      }
      if g.kind == Start {
        stack.AddToken(entry);
      } else if g.kind == Single {
        var seg := BuildSingle(g.token, m, params);
        out := out + [seg];
      }
      lastPos := m.end;
      assert ScanState(stack.data, lastPos, out) == next;
      i := i + 1;
    }
    if lastPos < |text| {
      var params := stack.GetParams();
      out := out + [LiteralSegment(post(text[lastPos..]), params)];
    }
    return Parsed(out);
  }
}

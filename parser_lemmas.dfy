/** Properties of the scan: which matches are ignored, what an accepted
    match emits, the text the output covers, skip regions, balanced
    pairs, the stack discipline, the empty-stack failure, and the
    scenarios of the repository's tests. */
module ParserProperties {
  import opened Values
  import opened Tokens
  import opened TokenStacks
  import opened Parsers

  /** A match that `skip_token` suppresses, or an end-match whose token is
      not open (on a non-empty stack), changes nothing: not the stack, not
      `last_pos`, and nothing is emitted. */
  lemma StepIgnored(groups: GroupTable, text: string, post: string -> string, st: ScanState, m: Match)
    requires Fits(groups, text, m) && st.lastPos <= |text|
    requires var g := groups[m.group];
      || Skips(st.stack, EntryOf(g.token), g.kind)
      || (g.kind == End && st.stack != [] && LastIndex(st.stack, g.token.id).None?)
    ensures Step(groups, text, post, st, m) == Some(st)
  {
  }

  /** An end-match on an empty stack is not suppressed and reaches the
      removal, which fails on the empty stack: the scan raises. */
  lemma StepEmptyStackCloser(groups: GroupTable, text: string, post: string -> string, st: ScanState, m: Match)
    requires Fits(groups, text, m) && st.lastPos <= |text|
    requires groups[m.group].kind == End && st.stack == []
    ensures Step(groups, text, post, st, m) == None
    ensures Run(groups, text, post, st, [m]) == Crashed(st.out)
  {
  }

  /** A match that is neither suppressed nor an unmatched end: the text
      between the last consumed match and this one becomes one literal
      segment (only when it is not empty) carrying the bag in force before
      the stack changed; a single token then adds its own segment; a start
      is pushed, an end removes its nearest occurrence; and `last_pos`
      moves to the end of the match. */
  lemma StepAccepted(groups: GroupTable, text: string, post: string -> string, st: ScanState, m: Match)
    requires Fits(groups, text, m) && st.lastPos <= |text|
    requires var g := groups[m.group];
      && !Skips(st.stack, EntryOf(g.token), g.kind)
      && (g.kind == End ==> LastIndex(st.stack, g.token.id).Some?)
    ensures var g := groups[m.group];
      var params := Merge(st.stack);
      var r := Step(groups, text, post, st, m);
      && r.Some?
      && r.value.lastPos == m.end
      && (g.kind == Start ==> r.value.stack == st.stack + [EntryOf(g.token)])
      && (g.kind == End ==> r.value.stack == RemoveAt(st.stack, LastIndex(st.stack, g.token.id).value))
      && (g.kind == Single ==> r.value.stack == st.stack)
      && var lit := if m.start > st.lastPos then [LiteralSegment(post(text[st.lastPos..m.start]), params)] else [];
         r.value.out == st.out + lit + (if g.kind == Single then [SingleSegment(g.token, m, params)] else [])
  {
  }

  /** The text a segment shows: its plain string, or nothing for any
      other value. */
  function SegText(s: Segment): string
  {
    if s.text.Literal? && s.text.v.Str? then s.text.v.s else ""
  }

  /** The texts of the segments, put back together in order. */
  function TextOf(segs: seq<Segment>): string
  {
    if segs == [] then "" else SegText(segs[0]) + TextOf(segs[1..])
  }

  /** Putting texts back together distributes over concatenation. */
  lemma {:induction false} TextOfAppend(a: seq<Segment>, b: seq<Segment>)
    ensures TextOf(a + b) == TextOf(a) + TextOf(b)
  {
    if a == [] {
      assert a + b == b;
    } else {
      assert (a + b)[0] == a[0] && (a + b)[1..] == a[1..] + b;
      TextOfAppend(a[1..], b);
    }
  }

  /** What an accepted match adds to the text of the output: the text
      since the last consumed match (postprocessed, when not empty), then,
      for a single token, its segment's text. The delimiter itself,
      `text[m.start..m.end]`, is never written for a start or an end, and
      `last_pos` moves past it; so the segments do not put the input back
      together (see `NestedDropsDelimiters`). */
  lemma StepText(groups: GroupTable, text: string, post: string -> string, st: ScanState, m: Match)
    requires Fits(groups, text, m) && st.lastPos <= |text|
    requires var g := groups[m.group];
      && !Skips(st.stack, EntryOf(g.token), g.kind)
      && (g.kind == End ==> LastIndex(st.stack, g.token.id).Some?)
    ensures var g := groups[m.group];
      var r := Step(groups, text, post, st, m);
      && r.Some? && r.value.lastPos == m.end
      && TextOf(r.value.out) ==
           TextOf(st.out)
           + (if m.start > st.lastPos then post(text[st.lastPos..m.start]) else "")
           + (if g.kind == Single then SegText(SingleSegment(g.token, m, Merge(st.stack))) else "")
  {
    StepAccepted(groups, text, post, st, m);
    var g := groups[m.group];
    var params := Merge(st.stack);
    var lit := if m.start > st.lastPos then [LiteralSegment(post(text[st.lastPos..m.start]), params)] else [];
    var single := if g.kind == Single then [SingleSegment(g.token, m, params)] else [];
    assert Step(groups, text, post, st, m).value.out == st.out + lit + single;
    TextOfAtMostTwo(st.out, lit, single);
  }

  /** The text of an output extended by at most one literal segment and at
      most one other segment. */
  lemma TextOfAtMostTwo(out: seq<Segment>, lit: seq<Segment>, single: seq<Segment>)
    requires |lit| <= 1 && |single| <= 1
    ensures TextOf(out + lit + single) ==
      TextOf(out) + (if lit != [] then SegText(lit[0]) else "") + (if single != [] then SegText(single[0]) else "")
  {
    TextOfAppend(out + lit, single);
    TextOfAppend(out, lit);
    if lit != [] {
      assert lit[1..] == [];
    }
    if single != [] {
      assert single[1..] == [];
    }
  }

  /** Running over `a + b` is running over `a`, then over `b`. */
  lemma {:induction false} RunAppend(groups: GroupTable, text: string, post: string -> string, st: ScanState, a: seq<Match>, b: seq<Match>)
    requires Scannable(groups, text, a) && Scannable(groups, text, b) && st.lastPos <= |text|
    ensures Scannable(groups, text, a + b)
    ensures Run(groups, text, post, st, a + b) ==
      match Run(groups, text, post, st, a)
      case Crashed(y) => Crashed(y)
      case Running(st') => Run(groups, text, post, st', b)
    decreases |a|
  {
    assert forall i :: 0 <= i < |a + b| ==> (a + b)[i] == if i < |a| then a[i] else b[i - |a|];
    if a == [] {
      assert a + b == b;
    } else {
      assert (a + b)[0] == a[0] && (a + b)[1..] == a[1..] + b;
      match Step(groups, text, post, st, a[0])
      case None =>
      case Some(st') =>
        RunAppend(groups, text, post, st', a[1..], b);
    }
  }

  /** Whether `m` is the end-match of the token on top of `s`. */
  predicate ClosesTop(groups: GroupTable, s: seq<Entry>, m: Match)
    requires m.group in groups && s != []
  {
    groups[m.group].kind == End && groups[m.group].token.id == s[|s| - 1].id
  }

  /** Inside an open skip region every match other than the region's own
      end-match is suppressed: the state comes out unchanged. */
  lemma {:induction false} SkipRegionSuppresses(groups: GroupTable, text: string, post: string -> string, st: ScanState, ms: seq<Match>)
    requires Scannable(groups, text, ms) && st.lastPos <= |text|
    requires st.stack != [] && st.stack[|st.stack| - 1].skip
    requires forall i :: 0 <= i < |ms| ==> !ClosesTop(groups, st.stack, ms[i])
    ensures Run(groups, text, post, st, ms) == Running(st)
    decreases |ms|
  {
    if ms != [] {
      assert !ClosesTop(groups, st.stack, ms[0]);
      assert Step(groups, text, post, st, ms[0]) == Some(st);
      SkipRegionSuppresses(groups, text, post, st, ms[1..]);
    }
  }

  /** A skip region, from the state right after its start: whatever the
      matches inside, its whole content up to its end-match becomes one
      literal segment with the bag in force, and the region is closed. */
  lemma SkipRegionCloses(groups: GroupTable, text: string, post: string -> string, st: ScanState, inner: seq<Match>, closer: Match)
    requires Scannable(groups, text, inner) && Fits(groups, text, closer) && st.lastPos <= |text|
    requires st.stack != [] && st.stack[|st.stack| - 1].skip
    requires forall i :: 0 <= i < |inner| ==> !ClosesTop(groups, st.stack, inner[i])
    requires ClosesTop(groups, st.stack, closer)
    ensures Scannable(groups, text, inner + [closer])
    ensures Run(groups, text, post, st, inner + [closer]) ==
      Running(ScanState(st.stack[..|st.stack| - 1], closer.end,
                        st.out + Gap(text, post, st.lastPos, closer.start, Merge(st.stack))))
  {
    RunAppend(groups, text, post, st, inner, [closer]);
    SkipRegionSuppresses(groups, text, post, st, inner);
    var top := st.stack[|st.stack| - 1];
    CloseTop(st.stack, EntryOf(groups[closer.group].token));
    assert [closer][1..] == [];
  }

  /** A balanced pair of a paired token `t` outside any skip region: the
      text before it keeps the outer bag, the enclosed text carries `t`'s
      attributes on top of it, and the stack is back where it was. */
  lemma BalancedPair(groups: GroupTable, text: string, post: string -> string, st: ScanState, open: Match, close: Match)
    requires Fits(groups, text, open) && Fits(groups, text, close) && st.lastPos <= |text|
    requires st.stack == [] || !st.stack[|st.stack| - 1].skip
    requires groups[open.group].kind == Start && groups[close.group].kind == End
    requires groups[close.group].token.id == groups[open.group].token.id
    ensures Scannable(groups, text, [open, close])
    ensures Run(groups, text, post, st, [open, close]) ==
      Running(ScanState(st.stack, close.end,
                        st.out + Gap(text, post, st.lastPos, open.start, Merge(st.stack))
                               + Gap(text, post, open.end, close.start, Merge(st.stack) + groups[open.group].token.params)))
  {
    var t := groups[open.group].token;
    var e := EntryOf(t);
    var s1 := ScanState(st.stack + [e], open.end, st.out + Gap(text, post, st.lastPos, open.start, Merge(st.stack)));
    assert Step(groups, text, post, st, open) == Some(s1);
    assert (st.stack + [e])[..|st.stack|] == st.stack;
    assert Merge(s1.stack) == Merge(st.stack) + t.params;
    CloseTop(s1.stack, EntryOf(groups[close.group].token));
    var s2 := ScanState(st.stack, close.end, s1.out + Gap(text, post, open.end, close.start, Merge(s1.stack)));
    assert Step(groups, text, post, s1, close) == Some(s2);
    assert [open, close][1..] == [close];
    assert [close][1..] == [];
    assert Run(groups, text, post, s1, [close]) == Running(s2);
  }

  /** Every entry on the stack was pushed by the start group of a token. */
  ghost predicate OpenedFrom(groups: GroupTable, s: seq<Entry>)
  {
    forall i :: 0 <= i < |s| ==>
      exists k :: k in groups && groups[k].kind == Start && EntryOf(groups[k].token) == s[i]
  }

  /** The scan keeps that discipline: only start-matches put entries on
      the stack, and removals keep the others. */
  lemma {:induction false} RunKeepsOpenedFrom(groups: GroupTable, text: string, post: string -> string, st: ScanState, ms: seq<Match>)
    requires Scannable(groups, text, ms) && st.lastPos <= |text|
    requires OpenedFrom(groups, st.stack)
    ensures Run(groups, text, post, st, ms).Running? ==> OpenedFrom(groups, Run(groups, text, post, st, ms).st.stack)
    decreases |ms|
  {
    if ms != [] {
      var m := ms[0];
      var g := groups[m.group];
      match Step(groups, text, post, st, m)
      case None =>
      case Some(st') =>
        if g.kind == End && st'.stack != st.stack {
          var i := LastIndex(st.stack, g.token.id).value;
          forall j | 0 <= j < |st'.stack|
            ensures exists k :: k in groups && groups[k].kind == Start && EntryOf(groups[k].token) == st'.stack[j]
          {
            if j < i {
              assert st'.stack[j] == st.stack[j];
            } else {
              assert st'.stack[j] == st.stack[j + 1];
            }
          }
        } else if g.kind == Start && st' != st {
          forall j | 0 <= j < |st'.stack|
            ensures exists k :: k in groups && groups[k].kind == Start && EntryOf(groups[k].token) == st'.stack[j]
          {
            if j < |st.stack| {
              assert st'.stack[j] == st.stack[j];
            } else {
              assert groups[m.group].kind == Start && EntryOf(groups[m.group].token) == st'.stack[j];
            }
          }
        }
        RunKeepsOpenedFrom(groups, text, post, st', ms[1..]);
    }
  }

  /** Only a paired token has a start group in the table. */
  lemma {:induction false} StartGroupsArePaired(tokens: seq<Token>, k: string)
    requires AllValid(tokens)
    requires k in GroupsOf(tokens) && GroupsOf(tokens)[k].kind == Start
    ensures GroupsOf(tokens)[k].token.Paired()
  {
    var init, last := tokens[..|tokens| - 1], tokens[|tokens| - 1];
    assert AllValid(init);
    if k == last.groupStart || (last.groupEnd.Some? && k == last.groupEnd.value) {
    } else {
      StartGroupsArePaired(init, k);
    }
  }

  // ------------------------------------------------------------------
  // Scenarios

  function Identity(s: string): string { s }

  const IsBold := map["is_bold" := Literal(Bool(true))]
  const IsItalic := map["is_italic" := Literal(Bool(true))]

  /** `**` for bold and `*` for italic, paired (tests/test_example.py). */
  const Bold := NewToken(0, "b1", @"\*\*", Some(@"\*\*"), false, IsBold)
  const Italic := NewToken(1, "i1", @"\*", Some(@"\*"), false, IsItalic)
  /** A backtick skip region. */
  const Code := NewToken(2, "pre1", "`", Some("`"), true, map[])

  /** A token built with a non-empty end pattern is paired, with the
      group names the constructor derives from its name. */
  lemma PairedTokenGroups(id: nat, name: string, ps: string, pe: string, skip: bool, params: Params)
    requires pe != ""
    ensures var t := NewToken(id, name, ps, Some(pe), skip, params);
      t.Paired() && t.groupStart == name + "_start" && t.groupEnd == Some(name + "_end")
  {
    assert Truthy(Some(pe));
  }

  /** The table of two paired tokens. */
  lemma GroupsOfTwoPaired(a: Token, b: Token)
    requires a.Paired() && b.Paired()
    ensures GroupsOf([a, b]) ==
      map[a.groupStart := Group(a, Start), a.groupEnd.value := Group(a, End),
          b.groupStart := Group(b, Start), b.groupEnd.value := Group(b, End)]
  {
    assert [a, b][..1] == [a];
    assert [a][..0] == [];
    assert GroupsOf([a]) == AddGroups(map[], a);
    var m0: GroupTable := map[];
    assert AddGroups(m0, a) == m0[a.groupStart := Group(a, Start)][a.groupEnd.value := Group(a, End)];
    assert GroupsOf([a, b]) == AddGroups(GroupsOf([a]), b);
    assert GroupsOf([a, b]) == m0[a.groupStart := Group(a, Start)][a.groupEnd.value := Group(a, End)]
                                 [b.groupStart := Group(b, Start)][b.groupEnd.value := Group(b, End)];
  }

  /** The table of the bold and italic tokens. */
  const BoldItalic := map["b1_start" := Group(Bold, Start), "b1_end" := Group(Bold, End),
                          "i1_start" := Group(Italic, Start), "i1_end" := Group(Italic, End)]

  /** `build_groups` on the bold and italic tokens gives that table. */
  lemma BoldItalicTable()
    ensures GroupsOf([Bold, Italic]) == BoldItalic
  {
    PairedTokenGroups(0, "b1", @"\*\*", @"\*\*", false, IsBold);
    PairedTokenGroups(1, "i1", @"\*", @"\*", false, IsItalic);
    assert Bold.groupStart == "b1_start" && Bold.groupEnd.value == "b1_end";
    assert Italic.groupStart == "i1_start" && Italic.groupEnd.value == "i1_end";
    GroupsOfTwoPaired(Bold, Italic);
  }

  const NestedText := "You can **try *this* awesome**"
  const NestedMatches := [Match("b1_start", 8, 10, "**", map[]), Match("i1_start", 14, 15, "*", map[]),
                          Match("i1_end", 19, 20, "*", map[]), Match("b1_end", 28, 30, "**", map[])]
  /** The scan states after each of the four matches. */
  const Nested1 := ScanState([EntryOf(Bold)], 10, [Segment(Literal(Str("You can ")), map[])])
  const Nested2 := ScanState([EntryOf(Bold), EntryOf(Italic)], 15, Nested1.out + [Segment(Literal(Str("try ")), IsBold)])
  const Nested3 := ScanState([EntryOf(Bold)], 20, Nested2.out + [Segment(Literal(Str("this")), IsBold + IsItalic)])
  const Nested4 := ScanState([], 30, Nested3.out + [Segment(Literal(Str(" awesome")), IsBold)])

  lemma NestedStep1()
    ensures Step(BoldItalic, NestedText, Identity, Initial, NestedMatches[0]) == Some(Nested1)
  {
    var none: Params := map[];
    assert Merge([]) == none && none - {"text"} == none;
    assert BoldItalic[NestedMatches[0].group] == Group(Bold, Start);
    assert Identity(NestedText[0..8]) == "You can ";
    assert Gap(NestedText, Identity, 0, 8, none) == [Segment(Literal(Str("You can ")), map[])];
    assert !Skips([], EntryOf(Bold), Start);
    assert Consume(NestedText, Identity, Initial, [], Group(Bold, Start), NestedMatches[0]) == Nested1;
  }

  lemma NestedStep2()
    ensures Step(BoldItalic, NestedText, Identity, Nested1, NestedMatches[1]) == Some(Nested2)
  {
    assert [EntryOf(Bold)][..0] == [];
    assert Merge([EntryOf(Bold)]) == IsBold && IsBold - {"text"} == IsBold;
    assert BoldItalic[NestedMatches[1].group] == Group(Italic, Start);
    assert Identity(NestedText[10..14]) == "try ";
    assert Gap(NestedText, Identity, 10, 14, IsBold) == [Segment(Literal(Str("try ")), IsBold)];
    assert !Skips([EntryOf(Bold)], EntryOf(Italic), Start);
    assert Consume(NestedText, Identity, Nested1, [EntryOf(Bold)], Group(Italic, Start), NestedMatches[1]) == Nested2;
  }

  lemma NestedStep3()
    ensures Step(BoldItalic, NestedText, Identity, Nested2, NestedMatches[2]) == Some(Nested3)
  {
    var b, i := EntryOf(Bold), EntryOf(Italic);
    CloseTop([b, i], i);
    assert [b, i][..1] == [b];
    assert BoldItalic[NestedMatches[2].group] == Group(Italic, End);
    assert !Skips([b, i], i, End);
    NestedConsume3();
  }

  lemma NestedConsume3()
    ensures Consume(NestedText, Identity, Nested2, [EntryOf(Bold)], Group(Italic, End), NestedMatches[2]) == Nested3
  {
    var b, i := EntryOf(Bold), EntryOf(Italic);
    assert [b][..0] == [] && [b, i][..1] == [b];
    assert Merge([b]) == map[] + IsBold == IsBold;
    assert Merge([b, i]) == IsBold + IsItalic && (IsBold + IsItalic) - {"text"} == IsBold + IsItalic;
    assert Identity(NestedText[15..19]) == "this";
    assert Gap(NestedText, Identity, 15, 19, IsBold + IsItalic) == [Segment(Literal(Str("this")), IsBold + IsItalic)];
  }

  lemma NestedStep4()
    ensures Step(BoldItalic, NestedText, Identity, Nested3, NestedMatches[3]) == Some(Nested4)
  {
    var b := EntryOf(Bold);
    assert [b][..0] == [];
    assert Merge([b]) == IsBold && IsBold - {"text"} == IsBold;
    CloseTop([b], b);
    assert BoldItalic[NestedMatches[3].group] == Group(Bold, End);
    assert Identity(NestedText[20..28]) == " awesome";
    assert Gap(NestedText, Identity, 20, 28, IsBold) == [Segment(Literal(Str(" awesome")), IsBold)];
  }

  /** "You can **try *this* awesome**" with the table `BoldItalicTable`
      shows `build_groups` builds: the nested span carries both flags, the
      text around it inside the bold span only the bold one. */
  lemma NestedExample()
    ensures Scannable(BoldItalic, NestedText, NestedMatches)
    ensures ParseSpec(BoldItalic, NestedText, NestedMatches, Identity) == Parsed([
        Segment(Literal(Str("You can ")), map[]),
        Segment(Literal(Str("try ")), IsBold),
        Segment(Literal(Str("this")), IsBold + IsItalic),
        Segment(Literal(Str(" awesome")), IsBold)])
  {
    NestedRun();
    NestedOutput();
  }

  lemma NestedOutput()
    ensures Trailing(NestedText, Identity, Nested4) == []
    ensures Nested4.out == [
        Segment(Literal(Str("You can ")), map[]),
        Segment(Literal(Str("try ")), IsBold),
        Segment(Literal(Str("this")), IsBold + IsItalic),
        Segment(Literal(Str(" awesome")), IsBold)]
  {
  }

  /** The segments `NestedExample` yields. */
  const NestedSegments := [
    Segment(Literal(Str("You can ")), map[]),
    Segment(Literal(Str("try ")), IsBold),
    Segment(Literal(Str("this")), IsBold + IsItalic),
    Segment(Literal(Str(" awesome")), IsBold)]

  lemma NestedSegmentsText()
    ensures TextOf(NestedSegments) == "You can " + "try " + "this" + " awesome"
  {
    var s := NestedSegments;
    assert s[1..][1..][1..][1..] == [];
    assert TextOf(s[3..]) == " awesome" + "" by { assert s[3..][0] == s[3] && s[3..][1..] == []; }
    assert TextOf(s[2..]) == "this" + TextOf(s[3..]) by { assert s[2..][0] == s[2] && s[2..][1..] == s[3..]; }
    assert TextOf(s[1..]) == "try " + TextOf(s[2..]) by { assert s[1..][0] == s[1] && s[1..][1..] == s[2..]; }
  }

  /** The segments of `NestedExample` do not put the input back together:
      the four delimiters `**`, `*`, `*`, `**` are consumed by the matches
      and appear in no segment, so the output's text is six characters
      shorter than the input. */
  lemma NestedDropsDelimiters()
    ensures ParseSpec(BoldItalic, NestedText, NestedMatches, Identity) == Parsed(NestedSegments)
    ensures TextOf(NestedSegments) == "You can " + "try " + "this" + " awesome"
    ensures |TextOf(NestedSegments)| + 6 == |NestedText|
  {
    NestedExample();
    NestedSegmentsText();
  }

  /** Running one match after another. */
  lemma RunStep(groups: GroupTable, text: string, post: string -> string, st: ScanState, ms: seq<Match>, st': ScanState)
    requires Scannable(groups, text, ms) && st.lastPos <= |text| && ms != []
    requires Step(groups, text, post, st, ms[0]) == Some(st')
    ensures Run(groups, text, post, st, ms) == Run(groups, text, post, st', ms[1..])
  {
  }

  lemma NestedRun()
    ensures Scannable(BoldItalic, NestedText, NestedMatches)
    ensures Run(BoldItalic, NestedText, Identity, Initial, NestedMatches) == Running(Nested4)
  {
    var ms := NestedMatches;
    NestedStep1();
    NestedStep2();
    NestedStep3();
    NestedStep4();
    assert ms[1..][0] == ms[1] && ms[1..][1..] == ms[2..];
    assert ms[2..][0] == ms[2] && ms[2..][1..] == ms[3..];
    assert ms[3..][0] == ms[3] && ms[3..][1..] == [];
    RunStep(BoldItalic, NestedText, Identity, Nested3, ms[3..], Nested4);
    RunStep(BoldItalic, NestedText, Identity, Nested2, ms[2..], Nested3);
    RunStep(BoldItalic, NestedText, Identity, Nested1, ms[1..], Nested2);
    RunStep(BoldItalic, NestedText, Identity, Initial, ms, Nested1);
  }

  /** The table of the italic and backtick tokens. */
  const ItalicCode := map["i1_start" := Group(Italic, Start), "i1_end" := Group(Italic, End),
                          "pre1_start" := Group(Code, Start), "pre1_end" := Group(Code, End)]

  /** `build_groups` on the italic and backtick tokens gives that table. */
  lemma ItalicCodeTable()
    ensures GroupsOf([Italic, Code]) == ItalicCode
  {
    PairedTokenGroups(1, "i1", @"\*", @"\*", false, IsItalic);
    PairedTokenGroups(2, "pre1", "`", "`", true, map[]);
    assert Italic.groupStart == "i1_start" && Italic.groupEnd.value == "i1_end";
    assert Code.groupStart == "pre1_start" && Code.groupEnd.value == "pre1_end";
    GroupsOfTwoPaired(Italic, Code);
  }

  const SkipText := "`*skip*`"
  const SkipMatches := [Match("pre1_start", 0, 1, "`", map[]), Match("i1_start", 1, 2, "*", map[]),
                        Match("i1_end", 6, 7, "*", map[]), Match("pre1_end", 7, 8, "`", map[])]

  lemma SkipOpen()
    ensures Step(ItalicCode, SkipText, Identity, Initial, SkipMatches[0]) == Some(ScanState([EntryOf(Code)], 1, []))
  {
    assert ItalicCode[SkipMatches[0].group] == Group(Code, Start);
    assert Gap(SkipText, Identity, 0, 0, map[]) == [];
    assert Consume(SkipText, Identity, Initial, [], Group(Code, Start), SkipMatches[0]) == ScanState([EntryOf(Code)], 1, []);
  }

  lemma SkipRegion()
    ensures Scannable(ItalicCode, SkipText, SkipMatches)
    ensures Run(ItalicCode, SkipText, Identity, ScanState([EntryOf(Code)], 1, []), SkipMatches[1..])
         == Running(ScanState([], 8, [Segment(Literal(Str("*skip*")), map[])]))
  {
    var ms := SkipMatches;
    var c := EntryOf(Code);
    var s1 := ScanState([c], 1, []);
    assert ItalicCode[ms[1].group] == Group(Italic, Start) && ItalicCode[ms[2].group] == Group(Italic, End);
    assert ItalicCode[ms[3].group] == Group(Code, End);
    assert ms[1..] == ms[1..3] + [ms[3]];
    assert forall i :: 0 <= i < |ms[1..3]| ==> ms[1..3][i] == ms[1 + i];
    SkipRegionCloses(ItalicCode, SkipText, Identity, s1, ms[1..3], ms[3]);
    var none: Params := map[];
    assert [c][..0] == [];
    assert Merge([c]) == none && none - {"text"} == none;
    assert Identity(SkipText[1..7]) == "*skip*";
    assert Gap(SkipText, Identity, 1, 7, none) == [Segment(Literal(Str("*skip*")), map[])];
  }

  /** "`*skip*`" with the table `ItalicCodeTable` shows: the stars inside
      the backtick region are not interpreted; the region's content is one
      plain segment. */
  lemma SkipExample()
    ensures Scannable(ItalicCode, SkipText, SkipMatches)
    ensures ParseSpec(ItalicCode, SkipText, SkipMatches, Identity) == Parsed([Segment(Literal(Str("*skip*")), map[])])
  {
    SkipOpen();
    SkipRegion();
    RunStep(ItalicCode, SkipText, Identity, Initial, SkipMatches, ScanState([EntryOf(Code)], 1, []));
    var last := ScanState([], 8, [Segment(Literal(Str("*skip*")), map[])]);
    assert Run(ItalicCode, SkipText, Identity, Initial, SkipMatches) == Running(last);
    assert Trailing(SkipText, Identity, last) == [];
    assert last.out + [] == last.out;
  }

  /** "**unterminated" with no match: the whole text is one plain segment.
      The match list is an input. The bare `\*\*` end pattern of `Bold`
      would fire at 0..2 and make the scan raise, as in
      `StrayCloserExample`; the empty list is what the boundary-guarded
      patterns of tests/test_example.py:14-15 give, since neither the end
      (which needs a boundary after it) nor the start (whose lookahead
      needs a later end) can match. */
  lemma UnterminatedExample()
    ensures ParseSpec(GroupsOf([Bold]), "**unterminated", [], Identity)
         == Parsed([Segment(Literal(Str("**unterminated")), map[])])
  {
    var none: Params := map[];
    assert Merge([]) == none && none - {"text"} == none;
    assert Identity("**unterminated"[0..]) == "**unterminated";
  }

  /** The table of a single token. */
  lemma GroupsOfOneSingle(t: Token)
    requires !t.Paired()
    ensures GroupsOf([t]) == map[t.groupStart := Group(t, Single)]
  {
    assert [t][..0] == [];
  }

  /** The link token of tests/test_example.py:41-42, a single token whose
      text and target are captures, the target through a transform. */
  function LinkToken(complete: Scalar -> Scalar): Token
  {
    NewToken(3, "link", @"(?<!\\)\[(?P<link>.+?)\]\((?P<url>.+?)\)", None, false,
             map["text" := Deferred("link", None), "link_target" := Deferred("url", Some(complete))])
  }

  const LinkText := "[link](www.eff.org)"
  const LinkMatch := Match("link_start", 0, 19, LinkText,
                           map["link_link" := Some("link"), "link_url" := Some("www.eff.org")])

  /** The segment of the link match: the `link` capture as its text and
      the transformed `url` capture as its target. */
  lemma LinkSegment(complete: Scalar -> Scalar)
    ensures SingleSegment(LinkToken(complete), LinkMatch, map[]) ==
      Segment(Literal(Str("link")), map["link_target" := Literal(complete(Str("www.eff.org")))])
  {
    var link := LinkToken(complete);
    assert CaptureName("link", "link") == "link_link" && CaptureName("link", "url") == "link_url";
    var none: Params := map[];
    var kw := none["text" := Literal(Str(LinkMatch.text))] + link.params;
    assert kw == link.params;
    assert kw - {"text"} == map["link_target" := Deferred("url", Some(complete))];
  }

  /** A link alone in the text yields that one segment. */
  lemma LinkExample(complete: Scalar -> Scalar)
    ensures Fits(GroupsOf([LinkToken(complete)]), LinkText, LinkMatch)
    ensures ParseSpec(GroupsOf([LinkToken(complete)]), LinkText, [LinkMatch], Identity) ==
      Parsed([Segment(Literal(Str("link")), map["link_target" := Literal(complete(Str("www.eff.org")))])])
  {
    var link := LinkToken(complete);
    var seg := Segment(Literal(Str("link")), map["link_target" := Literal(complete(Str("www.eff.org")))]);
    GroupsOfOneSingle(link);
    assert link.groupStart == "link_start";
    var none: Params := map[];
    assert Merge([]) == none;
    LinkSegment(complete);
    assert Consume(LinkText, Identity, Initial, [], Group(link, Single), LinkMatch) == ScanState([], 19, [seg]);
    RunStep(GroupsOf([link]), LinkText, Identity, Initial, [LinkMatch], ScanState([], 19, [seg]));
    assert [LinkMatch][1..] == [];
  }

  /** An end delimiter with nothing open ("a** b" with the bold token):
      the end pattern fires, the empty stack does not suppress it, and the
      scan raises instead of treating it as text. */
  lemma StrayCloserExample()
    ensures var ms := [Match("b1_end", 1, 3, "**", map[])];
      Scannable(GroupsOf([Bold]), "a** b", ms) &&
      ParseSpec(GroupsOf([Bold]), "a** b", ms, Identity) == Raised([])
  {
    PairedTokenGroups(0, "b1", @"\*\*", @"\*\*", false, IsBold);
    assert [Bold][..0] == [];
    assert Bold.groupStart == "b1_start" && Bold.groupEnd.value == "b1_end";
    var m0: GroupTable := map[];
    assert GroupsOf([Bold]) == AddGroups(m0, Bold);
    assert AddGroups(m0, Bold) == m0["b1_start" := Group(Bold, Start)]["b1_end" := Group(Bold, End)];
  }
}

/** The Markdown layer: tags, the group token that wraps them, the
    wrapping of loose tags into one uniquely named group, the
    reclassification of skip-tag matches, and the postprocessing hook that
    collapses runs of spaces. */
module Markdown {
  import opened Values
  import opened Tokens
  import opened TokenStacks

  /** `MarkdownTag`: a delimiter in its regex spelling (`char`, here
      `delim`), whether it opens a skip region, and its attributes. `id` is
      its identity. */
  datatype MarkdownTag = MarkdownTag(id: nat, delim: string, skip: bool, params: Params)
  {
    /** What the stack keeps of an open tag. */
    function AsEntry(): Entry { Entry(id, skip, params) }
  }

  // ------------------------------------------------------------------
  // Table keys

  /** `s.replace('\*', '*')`: every escaped star, scanning left to right
      without overlaps, becomes a plain star. */
  function Unescape(s: string): (r: string)
    ensures |r| <= |s|
    decreases |s|
  {
    if s == [] then []
    else if |s| >= 2 && s[0] == '\\' && s[1] == '*' then "*" + Unescape(s[2..])
    else [s[0]] + Unescape(s[1..])
  }

  /** The regex spelling of a literal delimiter: every star escaped. */
  function Escape(s: string): (r: string)
    ensures |r| >= |s|
  {
    if s == [] then []
    else (if s[0] == '*' then @"\*" else [s[0]]) + Escape(s[1..])
  }

  /** An escaped text never starts with a bare star. */
  lemma EscapeHead(s: string)
    requires Escape(s) != []
    ensures Escape(s)[0] != '*'
  {
  }

  /** A tag spelled as the escaped form of a literal delimiter is stored
      under that literal, the text the regex will have matched. */
  lemma {:induction false} UnescapeEscape(s: string)
    ensures Unescape(Escape(s)) == s
  {
    if s != [] {
      var e := Escape(s[1..]);
      UnescapeEscape(s[1..]);
      if s[0] == '*' {
        assert Escape(s) == @"\*" + e;
        assert (@"\*" + e)[2..] == e;
      } else {
        assert Escape(s) == [s[0]] + e;
        assert ([s[0]] + e)[1..] == e;
        if e != [] {
          EscapeHead(s[1..]);
          assert ([s[0]] + e)[1] == e[0];
        }
      }
    }
  }

  /** Whether `s` holds an escaped star. */
  predicate HasEscapedStar(s: string)
  {
    exists i :: 0 <= i < |s| - 1 && s[i] == '\\' && s[i + 1] == '*'
  }

  /** A spelling without an escaped star is its own key. */
  lemma {:induction false} UnescapePlain(s: string)
    requires !HasEscapedStar(s)
    ensures Unescape(s) == s
    decreases |s|
  {
    if s != [] {
      assert !(|s| >= 2 && s[0] == '\\' && s[1] == '*');
      assert !HasEscapedStar(s[1..]) by {
        forall i | 0 <= i < |s[1..]| - 1
          ensures !(s[1..][i] == '\\' && s[1..][i + 1] == '*')
        {
          assert s[1..][i] == s[i + 1] && s[1..][i + 1] == s[i + 2];
        }
      }
      UnescapePlain(s[1..]);
    }
  }

  /** The `__tokens` dictionary: each tag stored under its unescaped
      spelling, in declaration order, so a later tag replaces an earlier
      one with the same key. */
  function TagTable(tags: seq<MarkdownTag>): (r: map<string, MarkdownTag>)
    ensures forall j :: 0 <= j < |tags| ==> Unescape(tags[j].delim) in r
    ensures forall k :: k in r ==> r[k] in tags && Unescape(r[k].delim) == k
    ensures tags != [] ==> r[Unescape(tags[|tags| - 1].delim)] == tags[|tags| - 1]
  {
    if tags == [] then map[]
    else TagTable(tags[..|tags| - 1])[Unescape(tags[|tags| - 1].delim) := tags[|tags| - 1]]
  }

  /** Index of the last tag stored under `k`, if any. */
  function LastWithKey(tags: seq<MarkdownTag>, k: string): (r: Option<nat>)
    ensures r.Some? ==> r.value < |tags| && Unescape(tags[r.value].delim) == k &&
                        forall j :: r.value < j < |tags| ==> Unescape(tags[j].delim) != k
    ensures r.None? ==> forall j :: 0 <= j < |tags| ==> Unescape(tags[j].delim) != k
  {
    if tags == [] then None
    else if Unescape(tags[|tags| - 1].delim) == k then Some(|tags| - 1)
    else LastWithKey(tags[..|tags| - 1], k)
  }

  /** A key is in the table exactly when some tag is stored under it, and
      it holds the last such tag. */
  lemma {:induction false} TagTableLookup(tags: seq<MarkdownTag>, k: string)
    ensures k in TagTable(tags) <==> LastWithKey(tags, k).Some?
    ensures k in TagTable(tags) ==> TagTable(tags)[k] == tags[LastWithKey(tags, k).value]
  {
    if tags != [] {
      var init := tags[..|tags| - 1];
      TagTableLookup(init, k);
      if Unescape(tags[|tags| - 1].delim) != k {
        assert LastWithKey(tags, k) == LastWithKey(init, k);
        if LastWithKey(init, k).Some? {
          assert init[LastWithKey(init, k).value] == tags[LastWithKey(init, k).value];
        }
      }
    }
  }

  // ------------------------------------------------------------------
  // Alternations

  /** `sep.join(parts)`. */
  function Join(sep: string, parts: seq<string>): (r: string)
    ensures parts == [] ==> r == ""
    ensures parts != [] ==> parts[0] <= r
    ensures |parts| >= 2 ==> parts[0] + sep <= r
  {
    if parts == [] then ""
    else if |parts| == 1 then parts[0]
    else parts[0] + sep + Join(sep, parts[1..])
  }

  /** A join is empty (falsy) exactly when there is nothing to join or
      only one empty part. */
  lemma JoinEmpty(sep: string, parts: seq<string>)
    requires sep != ""
    ensures Join(sep, parts) == "" <==> parts == [] || parts == [""]
  {
    if |parts| >= 2 {
      assert |Join(sep, parts)| >= |sep|;
    }
  }

  /** Index of the first `c` in `s`. */
  function IndexOf(s: string, c: char): (r: nat)
    requires c in s
    ensures r < |s| && s[r] == c && c !in s[..r]
  {
    if s[0] == c then 0
    else
      assert c in s[1..] by { assert s == [s[0]] + s[1..]; }
      var i := IndexOf(s[1..], c);
      assert s[..i + 1] == [s[0]] + s[1..][..i];
      1 + i
  }

  /** Split `s` at every `c`. */
  function Split(s: string, c: char): (r: seq<string>)
    ensures |r| >= 1
    decreases |s|
  {
    if c !in s then [s]
    else
      var i := IndexOf(s, c);
      [s[..i]] + Split(s[i + 1..], c)
  }

  /** Splitting stops at the first separator. */
  lemma SplitFirst(x: string, rest: string)
    requires '|' !in x
    ensures Split(x + "|" + rest, '|') == [x] + Split(rest, '|')
  {
    var s := x + "|" + rest;
    IndexOfFirst(x, rest, '|');
    assert s[..|x|] == x;
    assert s[|x| + 1..] == rest;
  }

  /** The first `c` of `x + [c] + rest` is the one after `x`. */
  lemma {:induction false} IndexOfFirst(x: string, rest: string, c: char)
    requires c !in x
    ensures c in x + [c] + rest && IndexOf(x + [c] + rest, c) == |x|
  {
    var s := x + [c] + rest;
    assert s[|x|] == c;
    if x != [] {
      assert s[1..] == x[1..] + [c] + rest;
      IndexOfFirst(x[1..], rest, c);
    }
  }

  /** A `|`-joined alternation of parts without `|` gives back its parts:
      the join loses neither a part nor their order. */
  lemma {:induction false} SplitJoin(parts: seq<string>)
    requires parts != []
    requires forall i :: 0 <= i < |parts| ==> '|' !in parts[i]
    ensures Split(Join("|", parts), '|') == parts
  {
    if |parts| > 1 {
      SplitFirst(parts[0], Join("|", parts[1..]));
      SplitJoin(parts[1..]);
      assert parts == [parts[0]] + parts[1..];
    }
  }

  /** The spellings of the tags whose skip flag is `skip`, in declaration
      order. */
  function Chars(tags: seq<MarkdownTag>, skip: bool): (r: seq<string>)
    ensures |r| <= |tags|
    ensures r == [] <==> forall j :: 0 <= j < |tags| ==> tags[j].skip != skip
  {
    if tags == [] then []
    else (if tags[0].skip == skip then [tags[0].delim] else []) + Chars(tags[1..], skip)
  }

  /** Selecting keeps declaration order: the spellings of `a + b` are
      those of `a` followed by those of `b`. */
  lemma {:induction false} CharsAppend(a: seq<MarkdownTag>, b: seq<MarkdownTag>, skip: bool)
    ensures Chars(a + b, skip) == Chars(a, skip) + Chars(b, skip)
  {
    if a == [] {
      assert a + b == b;
    } else {
      assert (a + b)[0] == a[0] && (a + b)[1..] == a[1..] + b;
      CharsAppend(a[1..], b, skip);
    }
  }

  /** Every tag lands in exactly one of the two alternations. */
  lemma {:induction false} CharsPartition(tags: seq<MarkdownTag>)
    ensures |Chars(tags, false)| + |Chars(tags, true)| == |tags|
  {
    if tags != [] {
      CharsPartition(tags[1..]);
    }
  }

  const BLeft := @"(?:(?<=[^a-zA-Z0-9])|(?<=^))"
  const BRight := @"(?:(?=[^a-zA-Z0-9])|(?=$))"

  /** The start pattern of the common (interpreted) half. */
  function CommonStart(toks: string): (r: string)
    ensures |r| > |BLeft| + 15 + |toks| && r[|BLeft| + 15..|BLeft| + 15 + |toks|] == toks
  {
    BLeft + @"(?<!\\)(?P<tag>" + toks + @")(?!\s)(?:(?!(?P=tag)))(?=.+?(?:(?<![\s\\]))(?P=tag)" + BRight + ")"
  }

  /** The end pattern of the common half. */
  function CommonEnd(toks: string): (r: string)
    ensures |r| > 12 + |toks| && r[12..12 + |toks|] == toks
  {
    @"(?<![\s\\])(" + toks + ")" + BRight
  }

  /** The start pattern of the skip half. */
  function SkipStart(toks: string): (r: string)
    ensures |r| > 20 + |toks| && r[20..20 + |toks|] == toks
  {
    @"(?<!\\)(?P<skip_tag>" + toks + @")(?:(?!(?P=skip_tag)))(?=.+?(?:(?<!\\))(?P=skip_tag))"
  }

  /** The end pattern of the skip half. */
  function SkipEnd(toks: string): (r: string)
    ensures |r| > 8 + |toks| && r[8..8 + |toks|] == toks
  {
    @"(?<!\\)(" + toks + ")"
  }

  /** The halves a group's start (`start`) or end pattern is joined from:
      the common half when its alternation is not empty, then the skip
      half when its is not. */
  function Halves(tags: seq<MarkdownTag>, start: bool): (r: seq<string>)
    ensures var common, skip := Join("|", Chars(tags, false)), Join("|", Chars(tags, true));
      && |r| == (if common != "" then 1 else 0) + (if skip != "" then 1 else 0)
      && (common != "" ==> r[0] == if start then CommonStart(common) else CommonEnd(common))
      && (skip != "" ==> r[|r| - 1] == if start then SkipStart(skip) else SkipEnd(skip))
  {
    var common := Join("|", Chars(tags, false));
    var skip := Join("|", Chars(tags, true));
    (if common != "" then [if start then CommonStart(common) else CommonEnd(common)] else []) +
    (if skip != "" then [if start then SkipStart(skip) else SkipEnd(skip)] else [])
  }

  /** The patterns of a group for each combination of empty halves. */
  lemma HalvesCases(tags: seq<MarkdownTag>)
    ensures var common, skip := Join("|", Chars(tags, false)), Join("|", Chars(tags, true));
      var ps, pe := Join("|", Halves(tags, true)), Join("|", Halves(tags, false));
      && (common != "" && skip != "" ==>
            ps == CommonStart(common) + "|" + SkipStart(skip) && pe == CommonEnd(common) + "|" + SkipEnd(skip))
      && (common != "" && skip == "" ==> ps == CommonStart(common) && pe == CommonEnd(common))
      && (common == "" && skip != "" ==> ps == SkipStart(skip) && pe == SkipEnd(skip))
      && (common == "" && skip == "" ==> ps == "" && pe == "")
  {
  }

  // ------------------------------------------------------------------
  // The group token

  /** `MarkdownGroup`: a token whose patterns are assembled from its tags,
      with the table from matched delimiter to tag. */
  datatype MarkdownGroup = MarkdownGroup(token: Token, tags: map<string, MarkdownTag>)

  /** What the `MarkdownGroup` constructor builds. The token's skip flag
      and attributes are whatever keywords the caller passes on. */
  function MakeGroup(id: nat, tags: seq<MarkdownTag>, name: string, skip: bool, params: Params): (g: MarkdownGroup)
    ensures g.token.Valid() && g.token.id == id && g.token.name == name
    ensures g.token.skip == skip && g.token.params == params
    ensures g.tags == TagTable(tags)
    ensures g.token.Paired() <==> Join("|", Halves(tags, false)) != ""
  {
    MarkdownGroup(
      NewToken(id, name, Join("|", Halves(tags, true)), Some(Join("|", Halves(tags, false))), skip, params),
      TagTable(tags))
  }

  /** The group is paired exactly when one of its alternations is not
      empty; a group without tags is a single token that never opens. */
  lemma GroupPaired(id: nat, tags: seq<MarkdownTag>, name: string, skip: bool, params: Params)
    ensures MakeGroup(id, tags, name, skip, params).token.Paired() <==>
      Join("|", Chars(tags, false)) != "" || Join("|", Chars(tags, true)) != ""
  {
    var g := MakeGroup(id, tags, name, skip, params);
    assert g.token.Paired() <==> Join("|", Halves(tags, false)) != "";
    EndPatternEmpty(tags);
  }

  /** A group without tags is a single token. */
  lemma NoTagsSingle(id: nat, name: string, skip: bool, params: Params)
    ensures !MakeGroup(id, [], name, skip, params).token.Paired()
  {
    GroupPaired(id, [], name, skip, params);
  }

  /** One tag with a non-empty spelling makes the group paired. */
  lemma SomeTagPaired(id: nat, tags: seq<MarkdownTag>, name: string, skip: bool, params: Params, j: nat)
    requires j < |tags| && tags[j].delim != ""
    ensures MakeGroup(id, tags, name, skip, params).token.Paired()
  {
    GroupPaired(id, tags, name, skip, params);
    CharsMember(tags, j);
    JoinEmpty("|", Chars(tags, tags[j].skip));
  }

  /** The end pattern is empty exactly when both alternations are. */
  lemma EndPatternEmpty(tags: seq<MarkdownTag>)
    ensures Join("|", Halves(tags, false)) == "" <==>
      Join("|", Chars(tags, false)) == "" && Join("|", Chars(tags, true)) == ""
  {
    var common, skipToks := Join("|", Chars(tags, false)), Join("|", Chars(tags, true));
    HalvesCases(tags);
    assert |CommonEnd(common)| > 0 && |SkipEnd(skipToks)| > 0;
  }

  /** A tag's spelling is among those of its half. */
  lemma {:induction false} CharsMember(tags: seq<MarkdownTag>, j: nat)
    requires j < |tags|
    ensures tags[j].delim in Chars(tags, tags[j].skip)
  {
    if j > 0 {
      CharsMember(tags[1..], j - 1);
    }
  }

  /** The constructor's first loop: each tag stored under its key, in
      declaration order. */
  method BuildTagTable(tags: seq<MarkdownTag>) returns (table: map<string, MarkdownTag>)
    ensures table == TagTable(tags)
  {
    table := map[];
    for i := 0 to |tags|
      invariant table == TagTable(tags[..i])
    {
      assert tags[..i + 1][..i] == tags[..i];
      table := table[Unescape(tags[i].delim) := tags[i]];
    }
    assert tags[..|tags|] == tags;
  }

  /** The `MarkdownGroup` constructor: fill the table tag by tag, then
      join the alternations and the halves. */
  method NewMarkdownGroup(id: nat, tags: seq<MarkdownTag>, name: string, skip: bool, params: Params)
    returns (g: MarkdownGroup)
    ensures g == MakeGroup(id, tags, name, skip, params)
  {
    var table := BuildTagTable(tags);
    var common := Join("|", Chars(tags, false));
    var skipToks := Join("|", Chars(tags, true));
    var patternStart, patternEnd := [], [];
    if common != "" {
      patternStart := patternStart + [CommonStart(common)];
      patternEnd := patternEnd + [CommonEnd(common)];
    }
    if skipToks != "" {
      patternStart := patternStart + [SkipStart(skipToks)];
      patternEnd := patternEnd + [SkipEnd(skipToks)];
    }
    assert patternStart == Halves(tags, true);
    assert patternEnd == Halves(tags, false);
    g := MarkdownGroup(NewToken(id, name, Join("|", patternStart), Some(Join("|", patternEnd)), skip, params), table);
  }

  /** `get_tag`: the tag stored under `key`, or the `KeyError` of a
      missing key (here `None`). */
  function GetTag(g: MarkdownGroup, key: string): (r: Option<MarkdownTag>)
    ensures r.Some? <==> key in g.tags
    ensures r.Some? ==> r.value == g.tags[key]
  {
    if key in g.tags then Some(g.tags[key]) else None
  }

  /** `get_tag` on a group built from `tags` finds a tag under its
      unescaped spelling unless a later tag has the same key; and a tag
      spelled with escaped stars is found under the literal delimiter. */
  lemma GetTagFinds(id: nat, tags: seq<MarkdownTag>, name: string, skip: bool, params: Params, i: nat)
    requires i < |tags|
    requires forall j :: i < j < |tags| ==> Unescape(tags[j].delim) != Unescape(tags[i].delim)
    ensures GetTag(MakeGroup(id, tags, name, skip, params), Unescape(tags[i].delim)) == Some(tags[i])
    ensures forall d :: tags[i].delim == Escape(d) ==> GetTag(MakeGroup(id, tags, name, skip, params), d) == Some(tags[i])
  {
    TagTableLookup(tags, Unescape(tags[i].delim));
    forall d | tags[i].delim == Escape(d)
      ensures GetTag(MakeGroup(id, tags, name, skip, params), d) == Some(tags[i])
    {
      UnescapeEscape(d);
    }
  }

  /** A key no tag is stored under makes `get_tag` fail. */
  lemma GetTagMisses(id: nat, tags: seq<MarkdownTag>, name: string, skip: bool, params: Params, k: string)
    requires forall j :: 0 <= j < |tags| ==> Unescape(tags[j].delim) != k
    ensures GetTag(MakeGroup(id, tags, name, skip, params), k).None?
  {
    TagTableLookup(tags, k);
  }

  // ------------------------------------------------------------------
  // Wrapping loose tags

  /** An element of the list a Markdown parser is built from. */
  datatype Definition = TokenDef(token: Token) | GroupDef(group: MarkdownGroup) | TagDef(tag: MarkdownTag)

  /** The tags of the list, in order. */
  function TagsOf(defs: seq<Definition>): (r: seq<MarkdownTag>)
    ensures r == [] <==> forall j :: 0 <= j < |defs| ==> !defs[j].TagDef?
  {
    if defs == [] then []
    else (if defs[0].TagDef? then [defs[0].tag] else []) + TagsOf(defs[1..])
  }

  /** The tokens and groups of the list, in order. */
  function NonTags(defs: seq<Definition>): (r: seq<Definition>)
    ensures forall j :: 0 <= j < |r| ==> !r[j].TagDef?
    ensures |r| + |TagsOf(defs)| == |defs|
  {
    if defs == [] then []
    else (if defs[0].TagDef? then [] else [defs[0]]) + NonTags(defs[1..])
  }

  /** The names of the groups of the list, in order. */
  function GroupNames(defs: seq<Definition>): (r: seq<string>)
    ensures forall j :: 0 <= j < |defs| && defs[j].GroupDef? ==> defs[j].group.token.name in r
  {
    if defs == [] then []
    else (if defs[0].GroupDef? then [defs[0].group.token.name] else []) + GroupNames(defs[1..])
  }

  /** `markdown` followed by `k` letters `G`. */
  function Candidate(k: nat): (r: string)
    ensures |r| == 8 + k
  {
    "markdown" + seq(k, _ => 'G')
  }

  /** Length of the longest name. */
  function MaxLen(names: seq<string>): (r: nat)
    ensures forall i :: 0 <= i < |names| ==> |names[i]| <= r
  {
    if names == [] then 0
    else
      var m := MaxLen(names[1..]);
      assert forall i :: 1 <= i < |names| ==> names[i] == names[1..][i - 1];
      if |names[0]| > m then |names[0]| else m
  }

  /** The first candidate from `k` on that is not taken. */
  function FreeFrom(names: seq<string>, k: nat): (r: nat)
    ensures r >= k && Candidate(r) !in names
    ensures forall j :: k <= j < r ==> Candidate(j) in names
    decreases MaxLen(names) - k
  {
    if Candidate(k) in names then FreeFrom(names, k + 1) else k
  }

  /** How many `G`s the wrapper's name gets: the fewest that make it
      differ from every given name. */
  function UniqueIndex(names: seq<string>): (k: nat)
    ensures Candidate(k) !in names
    ensures forall j :: 0 <= j < k ==> Candidate(j) in names
  {
    FreeFrom(names, 0)
  }

  /** There is one fewest number of `G`s. */
  lemma UniqueIndexLeast(names: seq<string>, k: nat)
    requires Candidate(k) !in names
    requires forall j :: 0 <= j < k ==> Candidate(j) in names
    ensures k == UniqueIndex(names)
  {
  }

  /** The list `MarkdownBaseParser.__init__` hands to the base parser: the
      tokens and groups in their order, then, when there are loose tags,
      one group that wraps all of them, `id` being the new group object. */
  function Wrap(defs: seq<Definition>, id: nat): (r: seq<Definition>)
    ensures |r| == |NonTags(defs)| + (if TagsOf(defs) == [] then 0 else 1)
    ensures r[..|NonTags(defs)|] == NonTags(defs)
    ensures forall j :: 0 <= j < |r| ==> !r[j].TagDef?
  {
    var tags := TagsOf(defs);
    NonTags(defs) +
    if tags == [] then []
    else [GroupDef(MakeGroup(id, tags, Candidate(UniqueIndex(GroupNames(defs))), false, map[]))]
  }

  /** The wrapper wraps every loose tag, in order, under a name that no
      given group carries, and stores each under its unescaped spelling. */
  lemma WrapperGroup(defs: seq<Definition>, id: nat)
    requires TagsOf(defs) != []
    ensures var g := Wrap(defs, id)[|Wrap(defs, id)| - 1];
      && g.GroupDef?
      && g.group == MakeGroup(id, TagsOf(defs), g.group.token.name, false, map[])
      && (forall j :: 0 <= j < |defs| && defs[j].GroupDef? ==> defs[j].group.token.name != g.group.token.name)
      && (forall k :: k in g.group.tags <==> LastWithKey(TagsOf(defs), k).Some?)
  {
    forall k {
      TagTableLookup(TagsOf(defs), k);
    }
  }

  /** `MarkdownBaseParser.__init__`: sort the list into loose tags, the
      rest and the groups' names, then append the wrapper under the first
      free name. */
  method WrapTags(defs: seq<Definition>, id: nat) returns (final: seq<Definition>)
    ensures final == Wrap(defs, id)
  {
    var tagsToWrap: seq<MarkdownTag> := [];
    var names: seq<string> := [];
    final := [];
    for i := 0 to |defs|
      invariant tagsToWrap == TagsOf(defs[..i])
      invariant final == NonTags(defs[..i])
      invariant names == GroupNames(defs[..i])
    {
      PrefixStep(defs, i);
      var d := defs[i];
      if d.TagDef? {
        tagsToWrap := tagsToWrap + [d.tag];
        continue;
      }
      if d.GroupDef? {
        names := names + [d.group.token.name];
      }
      final := final + [d];
    }
    assert defs[..|defs|] == defs;
    if tagsToWrap != [] {
      var unique := "markdown";
      ghost var k: nat := 0;
      while unique in names
        invariant unique == Candidate(k)
        invariant forall j :: 0 <= j < k ==> Candidate(j) in names
        decreases MaxLen(names) - |unique|
      {
        assert Candidate(k + 1) == Candidate(k) + "G";
        unique := unique + "G";
        k := k + 1;
      }
      UniqueIndexLeast(names, k);
      var g := NewMarkdownGroup(id, tagsToWrap, unique, false, map[]);
      final := final + [GroupDef(g)];
    }
  }

  /** The three selections of a prefix grow by the next element. */
  lemma PrefixStep(defs: seq<Definition>, i: nat)
    requires i < |defs|
    ensures TagsOf(defs[..i + 1]) == TagsOf(defs[..i]) + (if defs[i].TagDef? then [defs[i].tag] else [])
    ensures NonTags(defs[..i + 1]) == NonTags(defs[..i]) + (if defs[i].TagDef? then [] else [defs[i]])
    ensures GroupNames(defs[..i + 1]) == GroupNames(defs[..i]) + (if defs[i].GroupDef? then [defs[i].group.token.name] else [])
  {
    SelectAppend(defs[..i], [defs[i]]);
    assert defs[..i + 1] == defs[..i] + [defs[i]];
  }

  /** Each selection of `a + b` is that of `a` followed by that of `b`. */
  lemma SelectAppend(a: seq<Definition>, b: seq<Definition>)
    ensures TagsOf(a + b) == TagsOf(a) + TagsOf(b)
    ensures NonTags(a + b) == NonTags(a) + NonTags(b)
    ensures GroupNames(a + b) == GroupNames(a) + GroupNames(b)
  {
    TagsOfAppend(a, b);
    NonTagsAppend(a, b);
    GroupNamesAppend(a, b);
  }

  lemma {:induction false} TagsOfAppend(a: seq<Definition>, b: seq<Definition>)
    ensures TagsOf(a + b) == TagsOf(a) + TagsOf(b)
  {
    if a == [] {
      assert a + b == b;
    } else {
      assert (a + b)[0] == a[0] && (a + b)[1..] == a[1..] + b;
      TagsOfAppend(a[1..], b);
    }
  }

  lemma {:induction false} NonTagsAppend(a: seq<Definition>, b: seq<Definition>)
    ensures NonTags(a + b) == NonTags(a) + NonTags(b)
  {
    if a == [] {
      assert a + b == b;
    } else {
      assert (a + b)[0] == a[0] && (a + b)[1..] == a[1..] + b;
      NonTagsAppend(a[1..], b);
    }
  }

  lemma {:induction false} GroupNamesAppend(a: seq<Definition>, b: seq<Definition>)
    ensures GroupNames(a + b) == GroupNames(a) + GroupNames(b)
  {
    if a == [] {
      assert a + b == b;
    } else {
      assert (a + b)[0] == a[0] && (a + b)[1..] == a[1..] + b;
      GroupNamesAppend(a[1..], b);
    }
  }

  /** Only groups' names are avoided: with a plain token named `markdown`
      beside a loose tag, the wrapper takes the same name, so both define
      the groups `markdown_start` and `markdown_end`. */
  lemma PlainTokenNameNotAvoided(t: Token, tag: MarkdownTag, id: nat)
    requires t.name == "markdown"
    ensures Wrap([TokenDef(t), TagDef(tag)], id)[1].group.token.name == t.name
  {
    var defs := [TokenDef(t), TagDef(tag)];
    var rest := [TagDef(tag)];
    assert defs[1..] == rest && rest[1..] == [];
    assert TagsOf(rest) == [tag] + TagsOf([]);
    assert GroupNames(rest) == [] && TagsOf(rest) == [tag];
    assert GroupNames(defs) == [];
    assert TagsOf(defs) == [tag];
    assert seq(0, _ => 'G') == [];
    assert Candidate(0) == "markdown";
  }

  // ------------------------------------------------------------------
  // Reclassifying matches

  /** What `get_matched_token` reports: the definition (a token, a group
      or a tag), the match type, and the group that fired. */
  datatype Matched = Matched(def: Definition, kind: MatchType, group: string)

  /** `MarkdownBaseParser.get_matched_token`, given what the base lookup
      returned for the match (`def`, `mt`, `group`). A group match is
      mapped on the tag stored under the matched text; `None` is the
      `KeyError` of a text no tag is stored under. A skip tag that is the
      innermost open tag turns into an end, whatever the regex said. */
  function GetMatchedToken(def: Definition, mt: MatchType, group: string, m: Match, stack: TokenStack): (r: Option<Matched>)
    reads stack
    ensures !def.GroupDef? ==> r == Some(Matched(def, mt, group))
    ensures def.GroupDef? ==> (r.Some? <==> m.text in def.group.tags)
    ensures def.GroupDef? && r.Some? ==>
      var tag := def.group.tags[m.text];
      && r.value.def == TagDef(tag)
      && r.value.group == group
      && (r.value.kind == End <==> mt == End || (tag.skip && stack.data != [] && stack.data[|stack.data| - 1].id == tag.id))
      && (r.value.kind != End ==> r.value.kind == mt)
  {
    if !def.GroupDef? then Some(Matched(def, mt, group))
    else match GetTag(def.group, m.text)
      case None => None
      case Some(tag) =>
        var last := stack.GetLastToken();
        var kind := if tag.skip && last.Some? && last.value.id == tag.id then End else mt;
        Some(Matched(TagDef(tag), kind, group))
  }

  /** The closing occurrence of an open skip tag, which the regex reports
      as another start since both delimiters are the same text, is
      reclassified as an end: `skip_token` lets it through and removing it
      pops the region. Without the reclassification `skip_token` would
      suppress it and the region would never close. */
  lemma SkipTagCloses(g: MarkdownGroup, mt: MatchType, group: string, m: Match, stack: TokenStack)
    requires m.text in g.tags && g.tags[m.text].skip
    requires stack.data != [] && stack.data[|stack.data| - 1] == g.tags[m.text].AsEntry()
    ensures var r := GetMatchedToken(GroupDef(g), mt, group, m, stack);
      var e := g.tags[m.text].AsEntry();
      && r.Some? && r.value.kind == End
      && !Skips(stack.data, e, r.value.kind)
      && Close(stack.data, e.id) == Some(stack.data[..|stack.data| - 1])
    ensures Skips(stack.data, g.tags[m.text].AsEntry(), Start)
  {
    CloseTop(stack.data, g.tags[m.text].AsEntry());
  }

  /** Inside a skip region opened by a tag, a match of any other tag is
      suppressed, whatever its reclassified type. */
  lemma OtherTagSuppressed(g: MarkdownGroup, mt: MatchType, group: string, m: Match, stack: TokenStack)
    requires m.text in g.tags
    requires stack.data != [] && stack.data[|stack.data| - 1].skip
    requires stack.data[|stack.data| - 1].id != g.tags[m.text].id
    ensures var r := GetMatchedToken(GroupDef(g), mt, group, m, stack);
      r.Some? && r.value.kind == mt && Skips(stack.data, r.value.def.tag.AsEntry(), r.value.kind)
  {
  }

  /** Outside a skip region, or on an empty stack, the type is kept. */
  lemma TypeKeptOutsideRegion(g: MarkdownGroup, mt: MatchType, group: string, m: Match, stack: TokenStack)
    requires m.text in g.tags
    requires stack.data == [] || stack.data[|stack.data| - 1].id != g.tags[m.text].id
    ensures var r := GetMatchedToken(GroupDef(g), mt, group, m, stack);
      r.Some? && r.value.kind == mt
  {
  }

  // ------------------------------------------------------------------
  // Postprocessing

  /** No two spaces in a row. */
  predicate NoDoubleSpace(s: string)
  {
    forall i :: 0 <= i < |s| - 1 ==> !(s[i] == ' ' && s[i + 1] == ' ')
  }

  /** `s` without its spaces. */
  function NonSpace(s: string): (r: string)
    ensures ' ' !in r
  {
    if s == [] then []
    else (if s[0] == ' ' then [] else [s[0]]) + NonSpace(s[1..])
  }

  /** `MarkdownParser.postprocess`, `re.sub(' +', ' ', text)`: every run
      of spaces becomes one space; every other character, tabs and line
      breaks included, is kept in order. */
  function Collapse(s: string): (r: string)
    ensures |r| <= |s|
  {
    if s == [] then []
    else if |s| >= 2 && s[0] == ' ' && s[1] == ' ' then Collapse(s[1..])
    else [s[0]] + Collapse(s[1..])
  }

  /** What the substitution guarantees: no two spaces in a row remain,
      no character other than a space is lost, added or moved, and the
      first character is kept. */
  lemma {:induction false} CollapseShape(s: string)
    ensures s != [] ==> Collapse(s) != [] && Collapse(s)[0] == s[0]
    ensures NoDoubleSpace(Collapse(s))
    ensures NonSpace(Collapse(s)) == NonSpace(s)
  {
    if s != [] {
      var t := s[1..];
      CollapseShape(t);
      assert NonSpace(s) == (if s[0] == ' ' then [] else [s[0]]) + NonSpace(t);
      if |s| >= 2 && s[0] == ' ' && s[1] == ' ' {
        assert t[0] == s[1];
      } else {
        var rest := Collapse(t);
        var r := [s[0]] + rest;
        assert r[1..] == rest;
        assert forall i :: 1 <= i < |r| ==> r[i] == rest[i - 1];
        if t != [] {
          assert r[1] == t[0] == s[1];
        }
      }
    }
  }

  /** Text without double spaces is left as it is. */
  lemma {:induction false} CollapseFixpoint(s: string)
    requires NoDoubleSpace(s)
    ensures Collapse(s) == s
  {
    if s != [] {
      assert NoDoubleSpace(s[1..]) by {
        forall i | 0 <= i < |s[1..]| - 1
          ensures !(s[1..][i] == ' ' && s[1..][i + 1] == ' ')
        {
          assert s[1..][i] == s[i + 1] && s[1..][i + 1] == s[i + 2];
        }
      }
      CollapseFixpoint(s[1..]);
      if |s| >= 2 {
        assert !(s[0] == ' ' && s[1] == ' ');
      }
    }
  }

  /** Postprocessing twice is postprocessing once. */
  lemma CollapseIdempotent(s: string)
    ensures Collapse(Collapse(s)) == Collapse(s)
  {
    CollapseShape(s);
    CollapseFixpoint(Collapse(s));
  }

  /** Runs of spaces do not cross a non-space boundary: collapsing a text
      that ends in a non-space and what follows it can be done separately. */
  lemma {:induction false} CollapseAppend(a: string, b: string)
    requires a == [] || a[|a| - 1] != ' '
    ensures Collapse(a + b) == Collapse(a) + Collapse(b)
    decreases |a|
  {
    if a == [] {
      assert a + b == b;
    } else {
      var t := a[1..];
      assert (a + b)[1..] == t + b;
      CollapseAppend(t, b);
      if |a| >= 2 {
        assert (a + b)[1] == a[1];
      }
    }
  }

  /** Two leading spaces collapse to one. */
  lemma CollapseLeading(s: string)
    requires |s| >= 2 && s[0] == ' ' && s[1] == ' '
    ensures Collapse(s) == Collapse(s[1..])
  {
  }

  /** The segments of tests/test_markdown.py:67-79 have the shapes
      word-spaces, word-spaces-word and spaces-word. */
  lemma CollapseExample()
    ensures Collapse("  post") == " post"
    ensures forall a, b :: ' ' !in a && ' ' !in b && a != [] ==>
      Collapse(a + "  " + b) == a + " " + b
  {
    CollapseSpacedWord("post");
    forall a, b | ' ' !in a && ' ' !in b && a != []
      ensures Collapse(a + "  " + b) == a + " " + b
    {
      CollapseWords(a, b);
    }
  }

  /** Two spaces between words without spaces become one. */
  lemma CollapseWords(a: string, b: string)
    requires ' ' !in a && ' ' !in b && a != []
    ensures Collapse(a + "  " + b) == a + " " + b
  {
    CollapsePlain(a);
    CollapseSpacedWord(b);
    assert a + "  " + b == a + ("  " + b);
    assert a + " " + b == a + (" " + b);
    CollapseAppend(a, "  " + b);
  }

  /** A word without spaces is kept. */
  lemma CollapsePlain(w: string)
    requires ' ' !in w
    ensures Collapse(w) == w
  {
    CollapseFixpoint(w);
  }

  /** Two spaces before a word without spaces become one. */
  lemma CollapseSpacedWord(w: string)
    requires ' ' !in w
    ensures Collapse("  " + w) == " " + w
  {
    CollapseLeading("  " + w);
    assert ("  " + w)[1..] == " " + w;
    assert NoDoubleSpace(" " + w) by {
      assert forall i :: 1 <= i < |" " + w| ==> (" " + w)[i] == w[i - 1];
    }
    CollapseFixpoint(" " + w);
  }

  /** The substitution read as one left-to-right pass: each character is
      appended to what has been written so far, except a space that
      follows a space already written. */
  function SqueezeFrom(acc: string, s: string): (r: string)
    ensures |r| <= |acc| + |s|
    decreases |s|
  {
    if s == [] then acc
    else if s[0] == ' ' && acc != [] && acc[|acc| - 1] == ' ' then SqueezeFrom(acc, s[1..])
    else SqueezeFrom(acc + [s[0]], s[1..])
  }

  /** One step of the pass. */
  lemma SqueezeStep(acc: string, s: string)
    requires s != []
    ensures s[0] == ' ' && acc != [] && acc[|acc| - 1] == ' ' ==> SqueezeFrom(acc, s) == SqueezeFrom(acc, s[1..])
    ensures !(s[0] == ' ' && acc != [] && acc[|acc| - 1] == ' ') ==> SqueezeFrom(acc, s) == SqueezeFrom(acc + [s[0]], s[1..])
  {
  }

  /** A first character that does not start a double space is kept. */
  lemma CollapseHead(s: string)
    requires s != [] && !(|s| >= 2 && s[0] == ' ' && s[1] == ' ')
    ensures Collapse(s) == [s[0]] + Collapse(s[1..])
  {
  }

  /** After a non-space, or at the start, the pass writes what
      `Collapse` makes of the rest. */
  lemma {:induction false} SqueezeAfterWord(acc: string, s: string)
    requires acc == [] || acc[|acc| - 1] != ' '
    ensures SqueezeFrom(acc, s) == acc + Collapse(s)
    decreases |s|, 1
  {
    if s == [] {
      assert acc + [] == acc;
    } else {
      var c, t := s[0], s[1..];
      SqueezeStep(acc, s);
      assert SqueezeFrom(acc, s) == SqueezeFrom(acc + [c], t);
      if c == ' ' {
        SqueezeAfterSpace(acc, t);
        assert [' '] + t == s;
      } else {
        SqueezeAfterWord(acc + [c], t);
        CollapseHead(s);
        assert acc + [c] + Collapse(t) == acc + ([c] + Collapse(t));
      }
    }
  }

  /** After a space, the rest of the text joins that space's run. */
  lemma {:induction false} SqueezeAfterSpace(w: string, s: string)
    ensures SqueezeFrom(w + [' '], s) == w + Collapse([' '] + s)
    decreases |s|, 0
  {
    var acc := w + [' '];
    var u := [' '] + s;
    if s == [] {
      assert u == [' '];
      CollapseHead(u);
      assert u[1..] == [];
    } else {
      var c, t := s[0], s[1..];
      assert u[1..] == s && u[0] == ' ' && u[1] == c;
      SqueezeStep(acc, s);
      if c == ' ' {
        assert SqueezeFrom(acc, s) == SqueezeFrom(acc, t);
        SqueezeAfterSpace(w, t);
        assert s == [' '] + t;
        CollapseLeading(u);
      } else {
        assert SqueezeFrom(acc, s) == SqueezeFrom(acc + [c], t);
        SqueezeAfterWord(acc + [c], t);
        CollapseHead(u);
        CollapseHead(s);
        assert acc + [c] + Collapse(t) == w + ([' '] + ([c] + Collapse(t)));
      }
    }
  }

  /** `Collapse` and the left-to-right pass agree on every text. */
  lemma CollapseIsSqueeze(s: string)
    ensures Collapse(s) == SqueezeFrom([], s)
  {
    SqueezeAfterWord([], s);
  }

  // ------------------------------------------------------------------
  // Scenarios

  const Star := MarkdownTag(0, @"\*", false, map["is_bold" := Literal(Bool(true))])
  const Tick := MarkdownTag(1, "`", true, map[])

  /** The two alternations of the star and backtick tags. */
  lemma StarTickChars()
    ensures Chars([Star, Tick], false) == [@"\*"] && Chars([Star, Tick], true) == ["`"]
  {
    var tags := [Star, Tick];
    assert tags[1..] == [Tick] && tags[1..][1..] == [];
  }

  /** The table of the star and backtick tags. */
  lemma StarTickTable()
    ensures TagTable([Star, Tick]) == map["*" := Star, "`" := Tick]
  {
    var tags := [Star, Tick];
    assert tags[..1] == [Star] && tags[..1][..0] == [];
    assert Unescape(@"\*") == "*";
    UnescapePlain("`");
    var empty: map<string, MarkdownTag> := map[];
    assert TagTable([Star]) == empty["*" := Star];
    assert TagTable(tags) == TagTable([Star])["`" := Tick];
  }

  /** The group of tests/test_markdown.py:82-95: one common and one skip
      tag; the start pattern joins the common half before the skip half,
      and the table holds each tag under its literal delimiter. */
  lemma SingleSkipGroup(id: nat)
    ensures var g := MakeGroup(id, [Star, Tick], "markdown", false, map[]);
      && g.token.Paired()
      && g.tags == map["*" := Star, "`" := Tick]
      && Join("|", Halves([Star, Tick], true)) == CommonStart(@"\*") + "|" + SkipStart("`")
      && Join("|", Halves([Star, Tick], false)) == CommonEnd(@"\*") + "|" + SkipEnd("`")
  {
    var tags := [Star, Tick];
    StarTickChars();
    assert Join("|", Chars(tags, false)) == @"\*" && Join("|", Chars(tags, true)) == "`";
    HalvesCases(tags);
    SomeTagPaired(id, tags, "markdown", false, map[], 0);
    StarTickTable();
  }

  /** The three selections of a tag, a token and a tag. */
  lemma WrapExampleTags(t: Token, a: MarkdownTag, b: MarkdownTag)
    ensures TagsOf([TagDef(a), TokenDef(t), TagDef(b)]) == [a, b]
  {
    var defs := [TagDef(a), TokenDef(t), TagDef(b)];
    var mid := [TokenDef(t), TagDef(b)];
    var last := [TagDef(b)];
    assert defs[1..] == mid && mid[1..] == last && last[1..] == [];
    assert TagsOf(last) == [b];
    assert TagsOf(mid) == [b];
  }

  lemma WrapExampleRest(t: Token, a: MarkdownTag, b: MarkdownTag)
    ensures NonTags([TagDef(a), TokenDef(t), TagDef(b)]) == [TokenDef(t)]
    ensures GroupNames([TagDef(a), TokenDef(t), TagDef(b)]) == []
  {
    var defs := [TagDef(a), TokenDef(t), TagDef(b)];
    var mid := [TokenDef(t), TagDef(b)];
    var last := [TagDef(b)];
    assert defs[1..] == mid && mid[1..] == last && last[1..] == [];
    assert NonTags(last) == [] && GroupNames(last) == [];
    assert NonTags(mid) == [TokenDef(t)] && GroupNames(mid) == [];
  }

  /** With loose tags, the wrapper is appended after the rest. */
  lemma WrapUnfold(defs: seq<Definition>, id: nat)
    requires TagsOf(defs) != []
    ensures Wrap(defs, id) == NonTags(defs) +
      [GroupDef(MakeGroup(id, TagsOf(defs), Candidate(UniqueIndex(GroupNames(defs))), false, map[]))]
  {
  }

  /** Loose tags are pulled out of the list, in order, into one group
      appended after the other tokens, named `markdown` when no group
      carries that name. */
  lemma WrapExample(t: Token, a: MarkdownTag, b: MarkdownTag, id: nat)
    ensures Wrap([TagDef(a), TokenDef(t), TagDef(b)], id) ==
      [TokenDef(t), GroupDef(MakeGroup(id, [a, b], "markdown", false, map[]))]
  {
    var defs := [TagDef(a), TokenDef(t), TagDef(b)];
    WrapExampleTags(t, a, b);
    WrapExampleRest(t, a, b);
    WrapUnfold(defs, id);
    assert seq(0, _ => 'G') == [];
    assert Candidate(UniqueIndex([])) == "markdown";
  }

  /** With groups named `markdown` and `markdownG`, the wrapper is named
      `markdownGG`. */
  lemma UniqueNameExample()
    ensures Candidate(UniqueIndex(["markdown", "markdownG"])) == "markdownGG"
  {
    var names := ["markdown", "markdownG"];
    assert seq(0, _ => 'G') == [] && seq(1, _ => 'G') == "G" && seq(2, _ => 'G') == "GG";
    assert Candidate(0) == names[0] && Candidate(1) == names[1];
    assert |Candidate(2)| == 10;
    UniqueIndexLeast(names, 2);
  }
}

/** Token definitions, match records, capture placeholders and segments
    (the `Token`, `MatchType`, `MatchGroup` and `Segment` classes). */
module Tokens {
  import opened Values

  /** How a fired group relates to its token. */
  datatype MatchType = Start | End | Single

  /** One match of the compound regex, as the regex library reports it:
      the name of the token group that fired (`lastgroup`), its span, the
      text it matched, and the token's nested captures. A capture name
      that is absent does not exist in the pattern; a name mapped to `None`
      exists but did not take part in this match. Matching itself belongs
      to the regex library and is not modelled. */
  datatype Match = Match(
    group: string,
    start: nat,
    end: nat,
    text: string,
    captures: map<string, Option<string>>)

  /** `(?P<group>body)` where every named group `?P<x>` of `body` has been
      renamed to `?P<prefix_x>`. The renaming is a substitution done with
      the regex library and is kept symbolic here. */
  datatype Pattern = NamedGroup(group: string, prefix: string, body: string)

  /** Name of the group that wraps a token's start (or only) pattern. */
  function StartGroup(name: string): string { name + "_start" }

  /** Name of the group that wraps a paired token's end pattern. */
  function EndGroup(name: string): string { name + "_end" }

  /** The lookahead appended to a paired token's start pattern: the start
      only counts when an end occurs later in the text. */
  function RequireLater(patternEnd: string): string { "(?=.+?" + patternEnd + ")" }

  /** Python truthiness of an optional pattern: neither `None` nor `''`. */
  predicate Truthy(p: Option<string>) { p.Some? && p.value != "" }

  /** A markup rule. `id` stands for the object's identity (`is`). */
  datatype Token = Token(
    id: nat,
    name: string,
    groupStart: string,
    groupEnd: Option<string>,
    patternStart: Pattern,
    patternEnd: Option<Pattern>,
    skip: bool,
    params: Params)
  {
    /** A paired token opens a span; a single one is self-closing. */
    predicate Paired() { groupEnd.Some? }

    /** The naming discipline the constructor establishes. */
    predicate Valid()
    {
      && groupStart == StartGroup(name)
      && patternStart.group == groupStart
      && patternStart.prefix == name
      && (groupEnd.Some? <==> patternEnd.Some?)
      && (groupEnd.Some? ==>
            && groupEnd.value == EndGroup(name)
            && patternEnd.value.group == groupEnd.value
            && patternEnd.value.prefix == name)
    }
  }

  /** `modify_pattern`: enclose `pattern` in the named group `group`, with
      its own named groups prefixed by the token's name. */
  function ModifyPattern(name: string, pattern: string, group: string): (p: Pattern)
    ensures p.group == group && p.prefix == name && p.body == pattern
  {
    NamedGroup(group, name, pattern)
  }

  /** The `Token` constructor. */
  function NewToken(
    id: nat, name: string, patternStart: string, patternEnd: Option<string>,
    skip: bool, params: Params): (t: Token)
    ensures t.Valid()
    ensures t.id == id && t.name == name && t.skip == skip && t.params == params
    ensures t.Paired() <==> Truthy(patternEnd)
    ensures t.Paired() ==>
      && t.patternStart.body == patternStart + RequireLater(patternEnd.value)
      && t.patternEnd.value.body == patternEnd.value
    ensures !t.Paired() ==> t.patternStart.body == patternStart
  {
    if !Truthy(patternEnd) then
      Token(id, name, StartGroup(name), None,
            ModifyPattern(name, patternStart, StartGroup(name)), None, skip, params)
    else
      Token(id, name, StartGroup(name), Some(EndGroup(name)),
            ModifyPattern(name, patternStart + RequireLater(patternEnd.value), StartGroup(name)),
            Some(ModifyPattern(name, patternEnd.value, EndGroup(name))), skip, params)
  }

  /** Distinct token names give distinct group names, and a start group
      never coincides with an end group; so the group table can tell every
      fired group's token and role apart. */
  lemma GroupNamesDistinct(a: string, b: string)
    ensures StartGroup(a) != EndGroup(b)
    ensures StartGroup(a) == StartGroup(b) ==> a == b
    ensures EndGroup(a) == EndGroup(b) ==> a == b
  {
    assert StartGroup(a)[|StartGroup(a)| - 1] == 't';
    assert EndGroup(b)[|EndGroup(b)| - 1] == 'd';
    if StartGroup(a) == StartGroup(b) {
      assert a == StartGroup(a)[..|a|];
      assert b == StartGroup(b)[..|b|];
    }
    if EndGroup(a) == EndGroup(b) {
      assert a == EndGroup(a)[..|a|];
      assert b == EndGroup(b)[..|b|];
    }
  }

  /** Name of a token's nested capture `group` after renaming. */
  function CaptureName(tokenName: string, group: string): string
  {
    tokenName + "_" + group
  }

  /** `match.group(name)`, with the `IndexError` of a name that does not
      exist caught and turned into `''`. */
  function Capture(m: Match, name: string): (r: Scalar)
    ensures name !in m.captures ==> r == Str("")
    ensures name in m.captures ==>
      (r.Null? <==> m.captures[name].None?) &&
      (m.captures[name].Some? ==> r == Str(m.captures[name].value))
  {
    if name !in m.captures then Str("")
    else match m.captures[name]
      case None => Null
      case Some(s) => Str(s)
  }

  /** `MatchGroup.get_group_value`: the token's capture `group`, through
      the transform when one is given. */
  function GroupValue(tokenName: string, group: string, func: Option<Scalar -> Scalar>, m: Match): (r: Scalar)
    ensures var c := CaptureName(tokenName, group);
      var raw := if c !in m.captures then Str("")
                 else if m.captures[c].None? then Null
                 else Str(m.captures[c].value);
      r == if func.None? then raw else func.value(raw)
  {
    var raw := Capture(m, CaptureName(tokenName, group));
    if func.None? then raw else func.value(raw)
  }

  /** Resolve one value against a (token, match) pair: a placeholder
      becomes the plain value of its capture, a plain value is kept. */
  function Resolve(v: Value, tokenName: string, m: Match): (r: Value)
    ensures r.Literal?
    ensures v.Literal? ==> r == v
    ensures v.Deferred? ==> r == Literal(GroupValue(tokenName, v.group, v.func, m))
  {
    match v
    case Literal(_) => v
    case Deferred(g, f) => Literal(GroupValue(tokenName, g, f, m))
  }

  /** Resolving is idempotent: a resolved value resolves to itself,
      whatever match it is resolved against afterwards. */
  lemma ResolveIdempotent(v: Value, name1: string, m1: Match, name2: string, m2: Match)
    ensures Resolve(Resolve(v, name1, m1), name2, m2) == Resolve(v, name1, m1)
  {
  }

  /** Resolution reads only the one capture the placeholder names. */
  lemma ResolveReadsOneCapture(v: Value, tokenName: string, m1: Match, m2: Match)
    requires v.Deferred?
    requires var c := CaptureName(tokenName, v.group);
      (c in m1.captures <==> c in m2.captures) &&
      (c in m1.captures ==> m1.captures[c] == m2.captures[c])
    ensures Resolve(v, tokenName, m1) == Resolve(v, tokenName, m2)
  {
  }

  /** All values of a bag resolved against a (token, match) pair. */
  function ResolveParams(p: Params, tokenName: string, m: Match): (r: Params)
    ensures r.Keys == p.Keys
    ensures AllLiteral(r)
    ensures forall k :: k in p && p[k].Literal? ==> r[k] == p[k]
    ensures forall k :: k in p && p[k].Deferred? ==>
      r[k] == Literal(GroupValue(tokenName, p[k].group, p[k].func, m))
  {
    map k | k in p :: Resolve(p[k], tokenName, m)
  }

  /** One unit of output: its text and its attributes. */
  datatype Segment = Segment(text: Value, params: Params)

  /** The (token, match) pair a segment of a single token is built with. */
  datatype Context = Context(tokenName: string, m: Match)

  /** The `Segment` constructor: with a (token, match) pair, its text and
      every attribute are resolved; without one they are kept as given. */
  function NewSegment(text: Value, ctx: Option<Context>, params: Params): (s: Segment)
    ensures ctx.None? ==> s == Segment(text, params)
    ensures ctx.Some? ==> s.text.Literal? && AllLiteral(s.params)
    ensures s.params.Keys == params.Keys
    ensures text.Literal? ==> s.text == text
    ensures forall k :: k in params && params[k].Literal? ==> s.params[k] == params[k]
    ensures ctx.Some? ==>
      && s.text == Resolve(text, ctx.value.tokenName, ctx.value.m)
      && s.params == ResolveParams(params, ctx.value.tokenName, ctx.value.m)
  {
    match ctx
    case None => Segment(text, params)
    case Some(c) => Segment(Resolve(text, c.tokenName, c.m), ResolveParams(params, c.tokenName, c.m))
  }

  /** `Segment.update_params`: walk the bag and replace each placeholder
      by its resolved value, leaving the other entries in place. */
  method UpdateParams(params: Params, tokenName: string, m: Match) returns (r: Params)
    ensures r == ResolveParams(params, tokenName, m)
  {
    r := params;
    var todo := params.Keys;
    while todo != {}
      invariant todo <= params.Keys
      invariant r.Keys == params.Keys
      invariant forall k :: k in params && k !in todo ==> r[k] == Resolve(params[k], tokenName, m)
      invariant forall k :: k in todo ==> r[k] == params[k]
      decreases todo
    {
      var k :| k in todo;
      if params[k].Deferred? {
        r := r[k := Resolve(params[k], tokenName, m)];
      }
      todo := todo - {k};
    }
  }
}

/** The stack of currently open paired tokens (`TokenStack`). */
module TokenStacks {
  import opened Values
  import opened Tokens

  /** What the stack keeps of an open token (or of a Markdown tag): its
      identity, its skip flag and its attributes. Two entries are "the same
      token" (`is`) exactly when their ids agree. */
  datatype Entry = Entry(id: nat, skip: bool, params: Params)

  /** The stack view of a token. */
  function EntryOf(t: Token): Entry { Entry(t.id, t.skip, t.params) }

  /** The attribute bag in force for stack `s` (outermost first): the bags
      of all entries applied in order, so an inner value overrides an outer
      one on the same key. */
  function Merge(s: seq<Entry>): (r: Params)
    ensures s == [] ==> r == map[]
    ensures s != [] ==> s[|s| - 1].params.Keys <= r.Keys
    ensures s != [] ==> forall k :: k in s[|s| - 1].params ==> r[k] == s[|s| - 1].params[k]
    ensures forall j, k :: 0 <= j < |s| && k in s[j].params ==> k in r
  {
    if s == [] then map[] else Merge(s[..|s| - 1]) + s[|s| - 1].params
  }

  /** Index of the innermost entry that declares `k`, if any. */
  function Innermost(s: seq<Entry>, k: string): (r: Option<nat>)
    ensures r.Some? ==> r.value < |s| && k in s[r.value].params &&
                        forall j :: r.value < j < |s| ==> k !in s[j].params
    ensures r.None? ==> forall j :: 0 <= j < |s| ==> k !in s[j].params
  {
    if s == [] then None
    else if k in s[|s| - 1].params then Some(|s| - 1)
    else Innermost(s[..|s| - 1], k)
  }

  /** An attribute is in force exactly when some open token declares it,
      and its value is that of the innermost such token. */
  lemma {:induction false} MergeLookup(s: seq<Entry>, k: string)
    ensures k in Merge(s) <==> Innermost(s, k).Some?
    ensures k in Merge(s) ==> Merge(s)[k] == s[Innermost(s, k).value].params[k]
  {
    if s != [] {
      var init := s[..|s| - 1];
      MergeLookup(init, k);
      if k !in s[|s| - 1].params {
        assert Innermost(s, k) == Innermost(init, k);
        if Innermost(init, k).Some? {
          assert init[Innermost(init, k).value] == s[Innermost(init, k).value];
        }
      }
    }
  }

  /** Attribute bags of different open tokens accumulate: a key declared
      only by the outer token and a key declared by the inner one are both
      in force, each with its own token's value. */
  lemma MergeNested(outer: Entry, inner: Entry, ko: string, ki: string)
    requires ko in outer.params && ko !in inner.params
    requires ki in inner.params
    ensures ko in Merge([outer, inner]) && Merge([outer, inner])[ko] == outer.params[ko]
    ensures ki in Merge([outer, inner]) && Merge([outer, inner])[ki] == inner.params[ki]
  {
    MergeLookup([outer, inner], ko);
    MergeLookup([outer, inner], ki);
  }

  /** Index of the occurrence of `id` nearest the top, if any. */
  function LastIndex(s: seq<Entry>, id: nat): (r: Option<nat>)
    ensures r.Some? ==> r.value < |s| && s[r.value].id == id &&
                        forall j :: r.value < j < |s| ==> s[j].id != id
    ensures r.None? ==> forall j :: 0 <= j < |s| ==> s[j].id != id
  {
    if s == [] then None
    else if s[|s| - 1].id == id then Some(|s| - 1)
    else LastIndex(s[..|s| - 1], id)
  }

  /** `s` without its element at `i`, the others in their order. */
  function RemoveAt(s: seq<Entry>, i: nat): (r: seq<Entry>)
    requires i < |s|
    ensures |r| == |s| - 1
    ensures forall j :: 0 <= j < i ==> r[j] == s[j]
    ensures forall j :: i <= j < |r| ==> r[j] == s[j + 1]
  {
    s[..i] + s[i + 1..]
  }

  /** The stack after closing `id`: its nearest occurrence removed, or
      `None` when the stack holds no occurrence of it. */
  function Close(s: seq<Entry>, id: nat): (r: Option<seq<Entry>>)
    ensures r.None? <==> LastIndex(s, id).None?
    ensures r.Some? ==> r.value == RemoveAt(s, LastIndex(s, id).value)
  {
    match LastIndex(s, id)
    case None => None
    case Some(i) => Some(RemoveAt(s, i))
  }

  /** Closing the token on top simply pops it. */
  lemma CloseTop(s: seq<Entry>, e: Entry)
    requires s != [] && s[|s| - 1].id == e.id
    ensures Close(s, e.id) == Some(s[..|s| - 1])
  {
    assert LastIndex(s, e.id) == Some(|s| - 1);
    assert RemoveAt(s, |s| - 1) == s[..|s| - 1];
  }

  /** `skip_token`: inside a skip region (the top entry is a skip token)
      every match is suppressed except the end-match of that very token. */
  function Skips(s: seq<Entry>, e: Entry, mt: MatchType): (r: bool)
    ensures s == [] ==> !r
    ensures s != [] && !s[|s| - 1].skip ==> !r
    ensures s != [] && s[|s| - 1].skip && s[|s| - 1].id == e.id ==> (r <==> mt != End)
    ensures s != [] && s[|s| - 1].skip && s[|s| - 1].id != e.id ==> r
  {
    if s == [] then false
    else if s[|s| - 1].skip then
      if s[|s| - 1].id == e.id then mt != End else true
    else false
  }

  class TokenStack {
    /** Open tokens, outermost first (`__data`). */
    var data: seq<Entry>

    constructor ()
      ensures data == []
    {
      data := [];
    }

    /** `add_token`: the token becomes the new top. */
    method AddToken(e: Entry)
      modifies this
      ensures data == old(data) + [e]
    {
      data := data + [e];
    }

    /** `remove_token`: pop the top if it is the token; otherwise remove
      the occurrence nearest the top, keeping the order of the rest. The
      source reads the top before anything else, so the stack must not be
      empty. */
    method RemoveToken(e: Entry) returns (found: bool)
      requires data != []
      modifies this
      ensures found <==> LastIndex(old(data), e.id).Some?
      ensures found ==> data == RemoveAt(old(data), LastIndex(old(data), e.id).value)
      ensures !found ==> data == old(data)
    {
      if data[|data| - 1].id == e.id {
        assert data[..|data| - 1] == RemoveAt(data, |data| - 1);
        data := data[..|data| - 1];
        return true;
      }
      var i := |data| - 1;
      while i > 0
        invariant 0 <= i < |data|
        invariant data == old(data)
        invariant forall j :: i <= j < |data| ==> data[j].id != e.id
      {
        if data[i - 1].id == e.id {
          data := RemoveAt(data, i - 1);
          return true;
        }
        i := i - 1;
      }
      return false;
    }

    /** `get_params`: fold the open tokens' bags, outermost first. */
    method GetParams() returns (r: Params)
      ensures r == Merge(data)
    {
      r := map[];
      var i := 0;
      while i < |data|
        invariant 0 <= i <= |data|
        invariant r == Merge(data[..i])
      {
        assert data[..i + 1][..i] == data[..i];
        r := r + data[i].params;
        i := i + 1;
      }
      assert data[..|data|] == data;
    }

    /** `skip_token` on the current contents. */
    function SkipToken(e: Entry, mt: MatchType): (r: bool)
      reads this
      ensures r <==> data != [] && data[|data| - 1].skip && (data[|data| - 1].id == e.id ==> mt != End)
    {
      Skips(data, e, mt)
    }

    /** `get_last_token`, which the Markdown layer calls but the base
      module does not define: the top entry, or the `IndexError` of an
      empty stack (here `None`). */
    function GetLastToken(): (r: Option<Entry>)
      reads this
      ensures r.None? <==> data == []
      ensures r.Some? ==> r.value == data[|data| - 1]
    {
      if data == [] then None else Some(data[|data| - 1])
    }
  }
}

/** Values carried by tokens and segments.

    An attribute (or a segment's text) is either a plain value fixed when the
    token is declared, or a placeholder for a named capture of the match that
    the engine resolves once the match is known (a `MatchGroup` in the
    library). */
module Values {

  datatype Option<T> = None | Some(value: T)

  /** The plain values attribute bags hold: booleans (`is_bold=True`),
      strings (`segment_type="LINE_BREAK"`), and the absent value that a
      capture group which did not take part in the match yields. */
  datatype Scalar = Bool(b: bool) | Str(s: string) | Null

  /** `Deferred(group, func)` is a `MatchGroup`: the capture `group` of the
      owning token, passed through the optional transform `func`. The
      transform is whatever callable the user supplied; it is kept abstract. */
  datatype Value =
    | Literal(v: Scalar)
    | Deferred(group: string, func: Option<Scalar -> Scalar>)

  /** A keyword-argument bag: attribute name to value. */
  type Params = map<string, Value>

  /** Every value in the bag is a plain value: no placeholder is left. */
  ghost predicate AllLiteral(p: Params)
  {
    forall k :: k in p ==> p[k].Literal?
  }
}

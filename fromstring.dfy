/**
 * Codecs from strings (src/common/codec/fromstring.ts): each has a
 * `validate` from a string, which fails with the rejected input, and an
 * `encode` back to a string.
 */
module FromString {
  import opened Wrappers

  /** The outcome of a from-string `validate`; a failure carries the rejected input. */
  type Validation<T> = Result<T, string>

  /** `string.validate`: every string is accepted unchanged. */
  function DecodeString(i: string): (r: Validation<string>)
    ensures r.Ok? && r.value == i
  {
    Ok(i)
  }

  /** `string.encode`: the identity. */
  function EncodeString(a: string): (r: string)
    ensures DecodeString(r) == Ok(a)
  {
    a
  }

  /** `boolean.validate`: exactly `true` and `false` are accepted. */
  function DecodeBoolean(i: string): (r: Validation<bool>)
    ensures r.Ok? <==> i == "true" || i == "false"
    ensures r.Ok? ==> r.value == (i == "true")
    ensures r.Err? ==> r.error == i
  {
    if i == "true" then Ok(true)
    else if i == "false" then Ok(false)
    else Err(i)
  }

  /** `boolean.encode`: JavaScript's `String(b)`. */
  function EncodeBoolean(b: bool): (s: string)
    ensures s == "true" || s == "false"
    ensures b <==> s == "true"
  {
    if b then "true" else "false"
  }

  /** Booleans round-trip both ways. */
  lemma BooleanRoundTrip(b: bool, i: string)
    ensures DecodeBoolean(EncodeBoolean(b)) == Ok(b)
    ensures DecodeBoolean(i).Ok? ==> EncodeBoolean(DecodeBoolean(i).value) == i
  {
  }

  /** `literalUnionMembershipFactory`: the record built by a reduce over the items, as its key set. */
  function MembershipOf(items: seq<string>): (o: set<string>)
    ensures forall q :: q in o <==> q in items
    decreases |items|
  {
    if items == [] then {}
    else MembershipOf(items[..|items| - 1]) + {items[|items| - 1]}
  }

  /** `literalUnion(items).validate` */
  function DecodeLiteral(items: seq<string>, i: string): (r: Validation<string>)
    ensures r.Ok? <==> i in items
    ensures r.Ok? ==> r.value == i
    ensures r.Err? ==> r.error == i
  {
    if i in MembershipOf(items) then Ok(i) else Err(i)
  }

  /** A value of unknown type, as `is` receives it: a string or something else. */
  datatype Unknown = UString(s: string) | NotAString

  /** `literalUnion(items).is`: a string that is one of the items. */
  predicate IsLiteral(items: seq<string>, u: Unknown)
  {
    u.UString? && u.s in MembershipOf(items)
  }

  /** `literalUnion(items).encode` is the identity, and the members are exactly what `is` accepts and `validate` round-trips. */
  lemma LiteralRoundTrip(items: seq<string>, a: string)
    ensures IsLiteral(items, UString(a)) <==> a in items
    ensures a in items ==> DecodeLiteral(items, a) == Ok(a)
  {
  }
}

/**
 * Codecs over unknown input (src/common/codec/index.ts): the literal union
 * codec and the `/pattern/flags` form of the RegExp codec. A regular
 * expression is represented by the memo it is built from, its pattern and
 * optional flags.
 */
module Codec {
  import opened Wrappers
  import opened FromString

  /** `literalUnion(items).validate`: first a string, then a member of the items. */
  function DecodeLiteralUnion(items: seq<string>, u: Unknown): (r: Result<string, Unknown>)
    ensures r.Ok? <==> u.UString? && u.s in items
    ensures r.Ok? ==> r.value == u.s
  {
    if u.NotAString? then Err(u)
    else
      var s := DecodeLiteral(items, u.s);
      if s.Ok? then Ok(s.value) else Err(UString(s.error))
  }

  /** `literalUnion` validates exactly what its `is` accepts, and gives it back unchanged. */
  lemma LiteralUnionAgreesWithIs(items: seq<string>, u: Unknown)
    ensures DecodeLiteralUnion(items, u).Ok? <==> IsLiteral(items, u)
    ensures IsLiteral(items, u) ==> DecodeLiteralUnion(items, u) == Ok(u.s)
  {
  }

  /** `RegExpMemo`: a non-empty pattern and, when present, non-empty flags. */
  datatype RegExpMemo = RegExpMemo(pattern: string, flags: Option<string>)

  predicate ValidMemo(m: RegExpMemo)
  {
    m.pattern != "" && (m.flags.Some? ==> m.flags.value != "")
  }

  /** `RegExpMemo.validate` on the record built from a string. */
  function ValidateMemo(m: RegExpMemo, i: string): (r: Validation<RegExpMemo>)
    ensures r.Ok? <==> ValidMemo(m)
    ensures r.Ok? ==> r.value == m
  {
    if ValidMemo(m) then Ok(m) else Err(i)
  }

  /** `s.indexOf(c, from)`: the first position at or after `from` holding `c`, or -1. */
  function IndexOf(s: string, c: char, from: nat): (r: int)
    ensures r == -1 || from <= r < |s|
    ensures r == -1 ==> forall j | from <= j < |s| :: s[j] != c
    ensures r != -1 ==> s[r] == c && forall j | from <= j < r :: s[j] != c
    decreases |s| - from
  {
    if from >= |s| then -1
    else if s[from] == c then from
    else IndexOf(s, c, from + 1)
  }

  /**
   * The split of `fromString.validate`: the input must start with `/` and
   * hold a second `/`; the pattern is what lies between the two, the flags
   * everything after the second.
   */
  function SplitRegExp(i: string): (r: Option<(string, string)>)
    ensures r.None? <==> i == [] || i[0] != '/' || forall j | 1 <= j < |i| :: i[j] != '/'
    ensures r.Some? ==> && i == "/" + r.value.0 + "/" + r.value.1
                        && forall j | 0 <= j < |r.value.0| :: r.value.0[j] != '/'
  {
    if i == [] || i[0] != '/' then None
    else
      var end := IndexOf(i, '/', 1);
      if end == -1 then None
      else
        assert i == "/" + i[1..end] + "/" + i[end + 1..];
        Some((i[1..end], i[end + 1..]))
  }

  /**
   * `regExp.fromString.validate` as written: the flags are always present,
   * possibly empty. The three-argument `super('RegExp', RegExpMemo, build)`
   * call of src/common/codec/index.ts:60-63 does not fit the six-parameter
   * constructor of src/common/codec/memoized.ts:16-23; it is read here as
   * `memoized.Type.from(RegExpMemo, build)` (memoized.ts:25-41), the only
   * reading under which `regExp.memo` and `regExp.validateMemo`, which the
   * filters use, exist. Under that reading `this.validate` checks the memo
   * fields first.
   */
  function RegExpFromStringAsWritten(i: string): (r: Validation<RegExpMemo>)
    ensures r.Ok? ==> SplitRegExp(i).Some? && r.value == RegExpMemo(SplitRegExp(i).value.0, Some(SplitRegExp(i).value.1))
  {
    var parts := SplitRegExp(i);
    if parts.None? then Err(i)
    else ValidateMemo(RegExpMemo(parts.value.0, Some(parts.value.1)), i)
  }

  /** `regExp.fromString.validate` with an empty flags part read as no flags. */
  function RegExpFromString(i: string): (r: Validation<RegExpMemo>)
    ensures r.Ok? <==> SplitRegExp(i).Some? && SplitRegExp(i).value.0 != ""
    ensures r.Ok? ==> ValidMemo(r.value) && r.value.pattern == SplitRegExp(i).value.0
  {
    var parts := SplitRegExp(i);
    if parts.None? then Err(i)
    else
      var flags := if parts.value.1 == "" then None else Some(parts.value.1);
      ValidateMemo(RegExpMemo(parts.value.0, flags), i)
  }

  /** `regExp.fromString.encode`: `/pattern/flags`, with an empty flags part when there are none. */
  function RegExpToString(m: RegExpMemo): (r: string)
    ensures |r| >= 2 && r[0] == '/'
  {
    "/" + m.pattern + "/" + m.flags.GetOr("")
  }

  /** The corrected decoder inverts the encoder on every valid memo whose pattern holds no `/`. */
  lemma RegExpRoundTrip(m: RegExpMemo)
    requires ValidMemo(m)
    requires forall j | 0 <= j < |m.pattern| :: m.pattern[j] != '/'
    ensures RegExpFromString(RegExpToString(m)) == Ok(m)
  {
    var s := RegExpToString(m);
    assert s[1 + |m.pattern|] == '/';
    assert forall j | 1 <= j < 1 + |m.pattern| :: s[j] == m.pattern[j - 1];
    var parts := SplitRegExp(s);
    assert s[1..1 + |m.pattern|] == m.pattern;
    assert s[2 + |m.pattern|..] == m.flags.GetOr("");
    assert IndexOf(s, '/', 1) == 1 + |m.pattern|;
  }

  /** Every string the corrected decoder accepts is re-encoded to itself. */
  lemma RegExpRoundTripString(i: string)
    requires RegExpFromString(i).Ok?
    ensures RegExpToString(RegExpFromString(i).value) == i
  {
  }

  /** As written, a regular expression without flags, `/abc/`, is encoded but cannot be decoded. */
  lemma FlaglessRegExpRejected()
    ensures var m := RegExpMemo("abc", None);
            ValidMemo(m) && RegExpToString(m) == "/abc/" && RegExpFromStringAsWritten("/abc/").Err?
  {
    var parts := SplitRegExp("/abc/");
    assert IndexOf("/abc/", '/', 1) == 4;
    assert "/abc/"[1..4] == "abc" && "/abc/"[5..] == "";
    assert parts == Some(("abc", ""));
  }
}

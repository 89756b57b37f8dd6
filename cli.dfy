/**
 * Command-line decoding (src/common/codec/cli/command.ts, flag.ts and the
 * older copy flags.ts). A command decodes a token list into positional
 * arguments and flag values: an `Input` cursor walks the tokens, and each
 * flag's decoder may take the following non-flag token as its argument.
 * The flag set is a map from flag name to its codec; a token is a flag name
 * exactly when it is a key of that map.
 */
module Cli {
  import opened Wrappers

  /** A decoded flag value: booleans and strings, or whatever a `singleArg` codec produces. */
  datatype FlagValue = BoolValue(b: bool) | StringValue(s: string)

  /** Why a flag failed: no argument left for it, or its argument was refused. */
  datatype DecodeError = MissingArgument | Invalid(arg: string)

  /**
   * The flag decoders: `boolean`, `string` and `singleArg(c)`, where `c` is a
   * from-string codec with a partial `parse` and its `render`.
   */
  datatype FlagKind =
    | BooleanFlag
    | StringFlag
    | SingleArg(parse: string -> Option<FlagValue>, render: FlagValue -> string)

  /** A flag's codec; `merge` is present exactly for mergeable codecs. */
  datatype FlagCodec = FlagCodec(kind: FlagKind, merge: Option<(FlagValue, FlagValue) -> FlagValue>)

  type FlagSet = map<string, FlagCodec>

  /** A decoded command. */
  datatype Command = Command(args: seq<string>, flags: map<string, FlagValue>)

  /** An encoded command: the arguments and each flag's tokens. */
  datatype Encoded = Encoded(args: seq<string>, flags: map<string, seq<string>>)

  /** An item handed out by `Input.next`. */
  datatype InputItem = InputItem(isFlag: bool, value: string)

  /** The token `peek` sees at position `i`: present, and not a flag name. */
  function PeekAt(flagSet: FlagSet, items: seq<string>, i: nat): Option<string>
  {
    if i < |items| && items[i] !in flagSet then Some(items[i]) else None
  }

  // ----- Flag decoders, as functions of the token list and position

  /** A value of the type the flag kind decodes to. */
  predicate Fits(kind: FlagKind, v: FlagValue)
  {
    match kind
    case BooleanFlag => v.BoolValue?
    case StringFlag => v.StringValue?
    case SingleArg(_, _) => true
  }

  /**
   * What a flag decoder returns when run on an `Input` at position `i`, and
   * the position it leaves behind. A decoder takes at most one token and
   * never a flag name.
   */
  function DecodeFlag(kind: FlagKind, flagSet: FlagSet, items: seq<string>, i: nat): (r: (Result<FlagValue, DecodeError>, nat))
    requires i <= |items|
    ensures i <= r.1 <= i + 1 && r.1 <= |items|
    ensures r.1 == i + 1 ==> PeekAt(flagSet, items, i).Some?
    ensures r.0.Ok? ==> Fits(kind, r.0.value)
  {
    var arg := PeekAt(flagSet, items, i);
    match kind
    case BooleanFlag =>
      if arg == Some("true") then (Ok(BoolValue(true)), i + 1)
      else if arg == Some("false") then (Ok(BoolValue(false)), i + 1)
      else (Ok(BoolValue(true)), i)
    case StringFlag =>
      if arg.Some? then (Ok(StringValue(arg.value)), i + 1) else (Err(MissingArgument), i)
    case SingleArg(parse, _) =>
      if arg.None? then (Err(MissingArgument), i)
      else
        var v := parse(arg.value);
        if v.Some? then (Ok(v.value), i + 1) else (Err(Invalid(arg.value)), i + 1)
  }

  /** The boolean flag never fails; it takes the next token exactly when that is `true` or `false`, and is false only for `false`. */
  lemma BooleanFlagDecodes(flagSet: FlagSet, items: seq<string>, i: nat)
    requires i <= |items|
    ensures var (r, j) := DecodeFlag(BooleanFlag, flagSet, items, i);
            var arg := PeekAt(flagSet, items, i);
            && r.Ok?
            && (j == i + 1 <==> arg == Some("true") || arg == Some("false"))
            && (r.value == BoolValue(false) <==> arg == Some("false"))
  {
  }

  /** The string flag fails exactly when no non-flag token follows; otherwise it takes that one token. */
  lemma StringFlagDecodes(flagSet: FlagSet, items: seq<string>, i: nat)
    requires i <= |items|
    ensures var (r, j) := DecodeFlag(StringFlag, flagSet, items, i);
            && (r.Err? <==> i == |items| || items[i] in flagSet)
            && (r.Err? ==> r.error == MissingArgument && j == i)
            && (r.Ok? ==> r.value == StringValue(items[i]) && j == i + 1)
  {
  }

  /** `singleArg(c)` takes one token as the string flag does, then gives `c`'s verdict on it. */
  lemma SingleArgDecodes(parse: string -> Option<FlagValue>, render: FlagValue -> string,
                         flagSet: FlagSet, items: seq<string>, i: nat)
    requires i <= |items|
    ensures var (r, j) := DecodeFlag(SingleArg(parse, render), flagSet, items, i);
            var (s, k) := DecodeFlag(StringFlag, flagSet, items, i);
            && j == k
            && (s.Err? ==> r == s)
            && (s.Ok? ==> r == (if parse(s.value.s).Some? then Ok(parse(s.value.s).value) else Err(Invalid(s.value.s))))
  {
  }

  // ----- Encoders

  /** A flag's encoder: `[String(a)]` for booleans, `[a]` for strings, `[c.encode(a)]` for `singleArg(c)`. */
  function EncodeFlag(kind: FlagKind, v: FlagValue): (r: seq<string>)
    requires Fits(kind, v)
    ensures |r| == 1
  {
    match kind
    case BooleanFlag => [if v.b then "true" else "false"]
    case StringFlag => [v.s]
    case SingleArg(_, render) => [render(v)]
  }

  /**
   * Encoding a flag value and decoding the tokens gives the value back and
   * consumes them all, provided the encoded token is not itself a flag name
   * and, for `singleArg(c)`, `c` round-trips the value.
   */
  lemma FlagRoundTrip(kind: FlagKind, flagSet: FlagSet, v: FlagValue)
    requires Fits(kind, v)
    requires EncodeFlag(kind, v)[0] !in flagSet
    requires kind.SingleArg? ==> kind.parse(kind.render(v)) == Some(v)
    ensures DecodeFlag(kind, flagSet, EncodeFlag(kind, v), 0) == (Ok(v), 1)
  {
  }

  /** `encode`: the arguments unchanged, every flag value through its flag's encoder. */
  function Encode(flagSet: FlagSet, c: Command): (r: Encoded)
    requires forall k | k in c.flags :: k in flagSet && Fits(flagSet[k].kind, c.flags[k])
    ensures r.args == c.args
    ensures r.flags.Keys == c.flags.Keys
    ensures forall k | k in r.flags :: r.flags[k] == EncodeFlag(flagSet[k].kind, c.flags[k])
  {
    Encoded(c.args, map k | k in c.flags :: EncodeFlag(flagSet[k].kind, c.flags[k]))
  }

  // ----- Command decoding, as a function

  /** Storing a decoded flag value: merged with an earlier one when the codec is mergeable, else replacing it. */
  function Record(flags: map<string, FlagValue>, name: string, codec: FlagCodec, v: FlagValue): (r: map<string, FlagValue>)
    ensures r.Keys == flags.Keys + {name}
    ensures forall k | k in flags && k != name :: r[k] == flags[k]
    ensures name !in flags || codec.merge.None? ==> r[name] == v
  {
    flags[name := if name in flags && codec.merge.Some? then codec.merge.value(flags[name], v) else v]
  }

  /**
   * The decoding loop from position `i` with the command built so far. It
   * only adds: the arguments so far stay in front, at most one argument is
   * added per remaining token, and the flags recorded so far stay recorded,
   * next to flags of the set only.
   */
  function DecodeFrom(flagSet: FlagSet, items: seq<string>, i: nat, acc: Command): (r: Result<Command, DecodeError>)
    requires i <= |items|
    ensures r.Ok? ==> && acc.args <= r.value.args && |r.value.args| <= |acc.args| + |items| - i
                      && acc.flags.Keys <= r.value.flags.Keys <= acc.flags.Keys + flagSet.Keys
    decreases |items| - i
  {
    if i == |items| then Ok(acc)
    else
      var item := items[i];
      if item !in flagSet then DecodeFrom(flagSet, items, i + 1, acc.(args := acc.args + [item]))
      else
        var (v, j) := DecodeFlag(flagSet[item].kind, flagSet, items, i + 1);
        if v.Err? then Err(v.error)
        else DecodeFrom(flagSet, items, j, acc.(flags := Record(acc.flags, item, flagSet[item], v.value)))
  }

  /** `validate`: decode the whole token list; no more arguments than tokens, and only flags of the set. */
  function Decode(flagSet: FlagSet, items: seq<string>): (r: Result<Command, DecodeError>)
    ensures r.Ok? ==> |r.value.args| <= |items| && r.value.flags.Keys <= flagSet.Keys
  {
    DecodeFrom(flagSet, items, 0, Command([], map[]))
  }

  // ----- Properties of decoding

  /** Without flag tokens every token is an argument, in order. */
  lemma {:induction false} ArgsOnlyFrom(flagSet: FlagSet, items: seq<string>, i: nat, acc: Command)
    requires i <= |items|
    requires forall j | i <= j < |items| :: items[j] !in flagSet
    ensures DecodeFrom(flagSet, items, i, acc) == Ok(acc.(args := acc.args + items[i..]))
    decreases |items| - i
  {
    if i < |items| {
      ArgsOnlyFrom(flagSet, items, i + 1, acc.(args := acc.args + [items[i]]));
      assert acc.args + [items[i]] + items[i + 1..] == acc.args + items[i..];
    } else {
      assert acc.args + items[i..] == acc.args;
    }
  }

  /** A token list with no flag name decodes to those arguments and no flags. */
  lemma ArgsOnly(flagSet: FlagSet, items: seq<string>)
    requires forall j | 0 <= j < |items| :: items[j] !in flagSet
    ensures Decode(flagSet, items) == Ok(Command(items, map[]))
  {
    ArgsOnlyFrom(flagSet, items, 0, Command([], map[]));
    assert [] + items[0..] == items;
  }

  /** The flag names among `items[i..]`. */
  function FlagsIn(flagSet: FlagSet, items: seq<string>, i: nat): set<string>
  {
    set j | i <= j < |items| && items[j] in flagSet :: items[j]
  }

  /**
   * A successful decode from `i` records exactly the flags met so far and
   * every flag name in `items[i..]`; each argument added is a non-flag token
   * of `items[i..]`.
   */
  lemma {:induction false} DecodeFromRecords(flagSet: FlagSet, items: seq<string>, i: nat, acc: Command)
    requires i <= |items|
    ensures var r := DecodeFrom(flagSet, items, i, acc);
            r.Ok? ==> && r.value.flags.Keys == acc.flags.Keys + FlagsIn(flagSet, items, i)
                      && forall a | a in r.value.args :: a in acc.args || (a in items[i..] && a !in flagSet)
    decreases |items| - i
  {
    if i < |items| {
      var item := items[i];
      assert FlagsIn(flagSet, items, i) == (if item in flagSet then {item} else {}) + FlagsIn(flagSet, items, i + 1);
      if item !in flagSet {
        DecodeFromRecords(flagSet, items, i + 1, acc.(args := acc.args + [item]));
      } else {
        var (v, j) := DecodeFlag(flagSet[item].kind, flagSet, items, i + 1);
        if v.Ok? {
          if j == i + 2 {
            assert items[i + 1] !in flagSet;
            assert FlagsIn(flagSet, items, i + 1) == FlagsIn(flagSet, items, i + 2);
          }
          DecodeFromRecords(flagSet, items, j, acc.(flags := Record(acc.flags, item, flagSet[item], v.value)));
          assert items[j..] == items[i..][j - i..];
        }
      }
    }
  }

  /** Position `j` is the argument of the flag token just before it: that flag's decoder takes it. */
  predicate Consumed(flagSet: FlagSet, items: seq<string>, j: int)
  {
    0 < j < |items| && items[j - 1] in flagSet
    && DecodeFlag(flagSet[items[j - 1]].kind, flagSet, items, j).1 == j + 1
  }

  /** Position `j` holds a positional argument: a non-flag token no flag takes. */
  predicate IsArgPos(flagSet: FlagSet, items: seq<string>, j: int)
  {
    0 <= j < |items| && items[j] !in flagSet && !Consumed(flagSet, items, j)
  }

  /** The positions `j` with `i <= j < n` that satisfy `p`, scanned in order. */
  function Positions(p: nat -> bool, n: nat, i: nat): (ps: seq<nat>)
    requires i <= n
    ensures forall k | 0 <= k < |ps| :: i <= ps[k] < n
    decreases n - i
  {
    if i == n then [] else (if p(i) then [i] else []) + Positions(p, n, i + 1)
  }

  /** `Positions` lists only positions that satisfy `p`, ... */
  lemma {:induction false} PositionsSound(p: nat -> bool, n: nat, i: nat)
    requires i <= n
    ensures forall k | 0 <= k < |Positions(p, n, i)| :: p(Positions(p, n, i)[k])
    decreases n - i
  {
    if i < n {
      PositionsSound(p, n, i + 1);
    }
  }

  /** ... in increasing order, ... */
  lemma {:induction false} PositionsSorted(p: nat -> bool, n: nat, i: nat)
    requires i <= n
    ensures forall k, l | 0 <= k < l < |Positions(p, n, i)| :: Positions(p, n, i)[k] < Positions(p, n, i)[l]
    decreases n - i
  {
    if i < n {
      PositionsSorted(p, n, i + 1);
    }
  }

  /** ... and every one of them. */
  lemma {:induction false} PositionsComplete(p: nat -> bool, n: nat, i: nat, j: nat)
    requires i <= j < n && p(j)
    ensures j in Positions(p, n, i)
    decreases n - i
  {
    if i < j {
      PositionsComplete(p, n, i + 1, j);
    }
  }

  /** The positions of the positional arguments in `items[i..]`. */
  function ArgPositions(flagSet: FlagSet, items: seq<string>, i: nat): (ps: seq<nat>)
    requires i <= |items|
    ensures forall k | 0 <= k < |ps| :: i <= ps[k] < |items|
  {
    Positions(j => IsArgPos(flagSet, items, j), |items|, i)
  }

  /** The tokens at positions `ps`, in the order of `ps`. */
  function TokensAt(items: seq<string>, ps: seq<nat>): (r: seq<string>)
    requires forall k | 0 <= k < |ps| :: ps[k] < |items|
    ensures |r| == |ps|
    decreases |ps|
  {
    if ps == [] then [] else [items[ps[0]]] + TokensAt(items, ps[1..])
  }

  lemma TokensAtCons(items: seq<string>, i: nat, ps: seq<nat>)
    requires i < |items| && forall k | 0 <= k < |ps| :: ps[k] < |items|
    ensures TokensAt(items, [i] + ps) == [items[i]] + TokensAt(items, ps)
  {
    assert ([i] + ps)[1..] == ps;
  }

  /** Position `j` holds a flag token whose decoder fails. */
  predicate FlagFailsAt(flagSet: FlagSet, items: seq<string>, j: int)
  {
    0 <= j < |items| && items[j] in flagSet
    && DecodeFlag(flagSet[items[j]].kind, flagSet, items, j + 1).0.Err?
  }

  /** A non-flag token no flag took opens the argument positions. */
  lemma ArgPositionsTake(flagSet: FlagSet, items: seq<string>, i: nat)
    requires i < |items| && items[i] !in flagSet && !Consumed(flagSet, items, i)
    ensures ArgPositions(flagSet, items, i) == [i] + ArgPositions(flagSet, items, i + 1)
  {
  }

  /** A flag token, and the argument it takes, are not argument positions. */
  lemma ArgPositionsSkip(flagSet: FlagSet, items: seq<string>, i: nat)
    requires i < |items| && items[i] in flagSet
    ensures ArgPositions(flagSet, items, i) == ArgPositions(flagSet, items, i + 1)
    ensures Consumed(flagSet, items, i + 1) ==> ArgPositions(flagSet, items, i + 1) == ArgPositions(flagSet, items, i + 2)
  {
  }

  /** From a position that no flag took, a successful decode appends exactly the tokens at the argument positions, in order. */
  lemma {:induction false} DecodeFromArgs(flagSet: FlagSet, items: seq<string>, i: nat, acc: Command)
    requires i <= |items| && !Consumed(flagSet, items, i)
    ensures var r := DecodeFrom(flagSet, items, i, acc);
            r.Ok? ==> r.value.args == acc.args + TokensAt(items, ArgPositions(flagSet, items, i))
    decreases |items| - i
  {
    if i == |items| {
      assert acc.args + [] == acc.args;
    } else {
      var item := items[i];
      var rest := ArgPositions(flagSet, items, i + 1);
      if item !in flagSet {
        var acc' := acc.(args := acc.args + [item]);
        assert DecodeFrom(flagSet, items, i, acc) == DecodeFrom(flagSet, items, i + 1, acc');
        DecodeFromArgs(flagSet, items, i + 1, acc');
        ArgPositionsTake(flagSet, items, i);
        TokensAtCons(items, i, rest);
        assert acc.args + [item] + TokensAt(items, rest) == acc.args + ([item] + TokensAt(items, rest));
      } else {
        var (v, j) := DecodeFlag(flagSet[item].kind, flagSet, items, i + 1);
        ArgPositionsSkip(flagSet, items, i);
        if v.Ok? {
          var acc' := acc.(flags := Record(acc.flags, item, flagSet[item], v.value));
          assert DecodeFrom(flagSet, items, i, acc) == DecodeFrom(flagSet, items, j, acc');
          assert j == i + 2 ==> Consumed(flagSet, items, i + 1);
          DecodeFromArgs(flagSet, items, j, acc');
        }
      }
    }
  }

  /** A non-flag token, and a flag whose decoder succeeds, are not failing flags; the decode goes on after them. */
  lemma DecodeFromStep(flagSet: FlagSet, items: seq<string>, i: nat, acc: Command)
    requires i < |items|
    ensures items[i] !in flagSet ==>
              && !FlagFailsAt(flagSet, items, i)
              && DecodeFrom(flagSet, items, i, acc) == DecodeFrom(flagSet, items, i + 1, acc.(args := acc.args + [items[i]]))
    ensures items[i] in flagSet ==>
              var (v, j) := DecodeFlag(flagSet[items[i]].kind, flagSet, items, i + 1);
              && (FlagFailsAt(flagSet, items, i) <==> v.Err?)
              && (v.Err? ==> DecodeFrom(flagSet, items, i, acc) == Err(v.error))
              && (v.Ok? ==> DecodeFrom(flagSet, items, i, acc)
                            == DecodeFrom(flagSet, items, j, acc.(flags := Record(acc.flags, items[i], flagSet[items[i]], v.value))))
              && (j == i + 2 ==> !FlagFailsAt(flagSet, items, i + 1) && Consumed(flagSet, items, i + 1))
  {
  }

  /** From a position that no flag took, the decode fails exactly when some flag's decoder fails, ... */
  lemma {:induction false} DecodeFromFails(flagSet: FlagSet, items: seq<string>, i: nat, acc: Command)
    requires i <= |items| && !Consumed(flagSet, items, i)
    ensures DecodeFrom(flagSet, items, i, acc).Err? <==> exists j | i <= j < |items| :: FlagFailsAt(flagSet, items, j)
    decreases |items| - i
  {
    if i < |items| {
      var item := items[i];
      DecodeFromStep(flagSet, items, i, acc);
      if item !in flagSet {
        DecodeFromFails(flagSet, items, i + 1, acc.(args := acc.args + [item]));
      } else {
        var (v, j) := DecodeFlag(flagSet[item].kind, flagSet, items, i + 1);
        if v.Ok? {
          DecodeFromFails(flagSet, items, j, acc.(flags := Record(acc.flags, item, flagSet[item], v.value)));
        }
      }
    }
  }

  /** ... and then with the error of the first such flag. */
  lemma {:induction false} DecodeFromFirstError(flagSet: FlagSet, items: seq<string>, i: nat, acc: Command, f: nat)
    requires i <= f < |items| && !Consumed(flagSet, items, i)
    requires FlagFailsAt(flagSet, items, f) && forall l | i <= l < f :: !FlagFailsAt(flagSet, items, l)
    ensures DecodeFrom(flagSet, items, i, acc) == Err(DecodeFlag(flagSet[items[f]].kind, flagSet, items, f + 1).0.error)
    decreases |items| - i
  {
    var item := items[i];
    DecodeFromStep(flagSet, items, i, acc);
    if item !in flagSet {
      DecodeFromFirstError(flagSet, items, i + 1, acc.(args := acc.args + [item]), f);
    } else if i < f {
      var (v, j) := DecodeFlag(flagSet[item].kind, flagSet, items, i + 1);
      DecodeFromFirstError(flagSet, items, j, acc.(flags := Record(acc.flags, item, flagSet[item], v.value)), f);
    }
  }

  /**
   * A decoded command has a value for exactly the flags named in the tokens,
   * and as arguments exactly the tokens at the argument positions, in their
   * order: so only non-flag tokens.
   */
  lemma DecodeRecords(flagSet: FlagSet, items: seq<string>)
    ensures var r := Decode(flagSet, items);
            r.Ok? ==> && (forall k :: k in r.value.flags <==> k in flagSet && k in items)
                      && (forall a | a in r.value.args :: a in items && a !in flagSet)
                      && r.value.args == TokensAt(items, ArgPositions(flagSet, items, 0))
  {
    DecodeFromRecords(flagSet, items, 0, Command([], map[]));
    DecodeFromArgs(flagSet, items, 0, Command([], map[]));
    var r := Decode(flagSet, items);
    if r.Ok? {
      forall k ensures k in r.value.flags <==> k in flagSet && k in items {
        if k in flagSet && k in items {
          var j :| 0 <= j < |items| && items[j] == k;
          assert k in FlagsIn(flagSet, items, 0);
        }
      }
      assert items[0..] == items;
    }
  }

  /**
   * The argument positions are the non-flag tokens that no flag takes as
   * its argument: all of them, and in increasing order.
   */
  lemma ArgPositionsExact(flagSet: FlagSet, items: seq<string>)
    ensures var ps := ArgPositions(flagSet, items, 0);
            && (forall k | 0 <= k < |ps| :: IsArgPos(flagSet, items, ps[k]))
            && (forall k, l | 0 <= k < l < |ps| :: ps[k] < ps[l])
            && (forall j | 0 <= j < |items| && IsArgPos(flagSet, items, j) :: j in ps)
  {
    var p := j => IsArgPos(flagSet, items, j);
    PositionsSound(p, |items|, 0);
    PositionsSorted(p, |items|, 0);
    forall j | 0 <= j < |items| && IsArgPos(flagSet, items, j)
      ensures j in ArgPositions(flagSet, items, 0)
    {
      PositionsComplete(p, |items|, 0, j);
    }
  }

  /** Decoding fails exactly when some flag's decoder fails, with the error of the first one. */
  lemma DecodeFails(flagSet: FlagSet, items: seq<string>)
    ensures var r := Decode(flagSet, items);
            && (r.Err? <==> exists j | 0 <= j < |items| :: FlagFailsAt(flagSet, items, j))
            && forall j | 0 <= j < |items| && FlagFailsAt(flagSet, items, j)
                          && (forall l | 0 <= l < j :: !FlagFailsAt(flagSet, items, l)) ::
                 r == Err(DecodeFlag(flagSet[items[j]].kind, flagSet, items, j + 1).0.error)
  {
    DecodeFromFails(flagSet, items, 0, Command([], map[]));
    forall j | 0 <= j < |items| && FlagFailsAt(flagSet, items, j) && (forall l | 0 <= l < j :: !FlagFailsAt(flagSet, items, l))
      ensures Decode(flagSet, items) == Err(DecodeFlag(flagSet[items[j]].kind, flagSet, items, j + 1).0.error)
    {
      DecodeFromFirstError(flagSet, items, 0, Command([], map[]), j);
    }
  }

  /** The flag kinds that fail when no argument follows. */
  predicate NeedsArgument(kind: FlagKind)
  {
    kind.StringFlag? || kind.SingleArg?
  }

  /**
   * A token list ending in the name of a flag that needs an argument never
   * decodes: flag names are never taken as arguments, so that last token is
   * always reached, and nothing follows it.
   */
  lemma {:induction false} TrailingFlagFailsFrom(flagSet: FlagSet, items: seq<string>, i: nat, acc: Command)
    requires i < |items|
    requires items[|items| - 1] in flagSet && NeedsArgument(flagSet[items[|items| - 1]].kind)
    ensures DecodeFrom(flagSet, items, i, acc).Err?
    decreases |items| - i
  {
    var item := items[i];
    if item !in flagSet {
      TrailingFlagFailsFrom(flagSet, items, i + 1, acc.(args := acc.args + [item]));
    } else if i < |items| - 1 {
      var (v, j) := DecodeFlag(flagSet[item].kind, flagSet, items, i + 1);
      if v.Ok? {
        if j == i + 2 {
          assert items[i + 1] !in flagSet;
        }
        TrailingFlagFailsFrom(flagSet, items, j, acc.(flags := Record(acc.flags, item, flagSet[item], v.value)));
      }
    }
  }

  /** A failing flag decoder fails the whole decode. */
  lemma TrailingFlagFails(flagSet: FlagSet, items: seq<string>)
    requires items != []
    requires items[|items| - 1] in flagSet && NeedsArgument(flagSet[items[|items| - 1]].kind)
    ensures Decode(flagSet, items).Err?
  {
    TrailingFlagFailsFrom(flagSet, items, 0, Command([], map[]));
  }

  // ----- The Input cursor and the decoders as methods

  /** `Input`: the token list, the flag set and a position that only moves forward. */
  class Input {
    const flagSet: FlagSet
    const items: seq<string>
    var idx: nat

    ghost predicate Valid()
      reads this
    {
      idx <= |items|
    }

    constructor (flagSet: FlagSet, items: seq<string>)
      ensures Valid() && this.flagSet == flagSet && this.items == items && idx == 0
    {
      this.flagSet := flagSet;
      this.items := items;
      idx := 0;
    }

    /** `peek`: the current token unless input has ended or it is a flag name. */
    function Peek(): (r: Option<string>)
      reads this
      ensures r.Some? <==> idx < |items| && items[idx] !in flagSet
      ensures r.Some? ==> r.value == items[idx]
    {
      PeekAt(flagSet, items, idx)
    }

    /** `consume`: what `peek` gives, advancing past it exactly when there was one. */
    method Consume() returns (r: Option<string>)
      requires Valid()
      modifies this
      ensures Valid()
      ensures r == old(Peek())
      ensures idx == old(idx) + (if r.Some? then 1 else 0)
    {
      r := Peek();
      if r.Some? {
        idx := idx + 1;
      }
    }

    /** `next`: the current token tagged as flag or not, advancing by one; nothing at the end. */
    method Next() returns (r: Option<InputItem>)
      requires Valid()
      modifies this
      ensures Valid()
      ensures old(idx) == |items| ==> r.None? && idx == old(idx)
      ensures old(idx) < |items| ==> && r == Some(InputItem(items[old(idx)] in flagSet, items[old(idx)]))
                                     && idx == old(idx) + 1
    {
      if idx == |items| {
        return None;
      }
      var item := items[idx];
      idx := idx + 1;
      r := Some(InputItem(item in flagSet, item));
    }
  }

  /** `boolean.validate` */
  method ValidateBoolean(input: Input) returns (r: Result<FlagValue, DecodeError>)
    requires input.Valid()
    modifies input
    ensures input.Valid()
    ensures (r, input.idx) == DecodeFlag(BooleanFlag, input.flagSet, input.items, old(input.idx))
  {
    var arg := input.Peek();
    if arg == Some("true") {
      var _ := input.Consume();
      return Ok(BoolValue(true));
    } else if arg == Some("false") {
      var _ := input.Consume();
      return Ok(BoolValue(false));
    }
    return Ok(BoolValue(true));
  }

  /** `string.validate` */
  method ValidateString(input: Input) returns (r: Result<FlagValue, DecodeError>)
    requires input.Valid()
    modifies input
    ensures input.Valid()
    ensures (r, input.idx) == DecodeFlag(StringFlag, input.flagSet, input.items, old(input.idx))
  {
    var arg := input.Consume();
    r := if arg.None? then Err(MissingArgument) else Ok(StringValue(arg.value));
  }

  /** `singleArg(c).validate`: the string flag piped into `c`. */
  method ValidateSingleArg(parse: string -> Option<FlagValue>, render: FlagValue -> string, input: Input)
    returns (r: Result<FlagValue, DecodeError>)
    requires input.Valid()
    modifies input
    ensures input.Valid()
    ensures (r, input.idx) == DecodeFlag(SingleArg(parse, render), input.flagSet, input.items, old(input.idx))
  {
    var s := ValidateString(input);
    if s.Err? {
      return s;
    }
    var v := parse(s.value.s);
    r := if v.Some? then Ok(v.value) else Err(Invalid(s.value.s));
  }

  /** A flag codec's `validate`. */
  method ValidateFlag(kind: FlagKind, input: Input) returns (r: Result<FlagValue, DecodeError>)
    requires input.Valid()
    modifies input
    ensures input.Valid()
    ensures (r, input.idx) == DecodeFlag(kind, input.flagSet, input.items, old(input.idx))
  {
    match kind {
      case BooleanFlag => r := ValidateBoolean(input);
      case StringFlag => r := ValidateString(input);
      case SingleArg(parse, render) => r := ValidateSingleArg(parse, render, input);
    }
  }

  /** `from(flagSet).validate`: the loop over `Input.next`. */
  method DecodeCommand(flagSet: FlagSet, items: seq<string>) returns (r: Result<Command, DecodeError>)
    ensures r == Decode(flagSet, items)
  {
    var input := new Input(flagSet, items);
    var res := Command([], map[]);
    var item := input.Next();
    while item.Some?
      invariant input.Valid() && input.flagSet == flagSet && input.items == items
      invariant item.None? ==> input.idx == |items| && Decode(flagSet, items) == Ok(res)
      invariant item.Some? ==> && 0 < input.idx
                               && item.value == InputItem(items[input.idx - 1] in flagSet, items[input.idx - 1])
                               && Decode(flagSet, items) == DecodeFrom(flagSet, items, input.idx - 1, res)
      decreases |items| - input.idx + (if item.Some? then 1 else 0)
    {
      var name := item.value.value;
      if !item.value.isFlag {
        res := res.(args := res.args + [name]);
        item := input.Next();
        continue;
      }
      var codec := flagSet[name];
      var v := ValidateFlag(codec.kind, input);
      if v.Err? {
        return Err(v.error);
      }
      res := res.(flags := Record(res.flags, name, codec, v.value));
      item := input.Next();
    }
    r := Ok(res);
  }

  // ----- The examples of src/common/codec/cli.test.ts

  function TestFlags(): FlagSet
  {
    map["--testBoolOne" := FlagCodec(BooleanFlag, None), "--testBoolTwo" := FlagCodec(BooleanFlag, None),
        "--testStringOne" := FlagCodec(StringFlag, None), "--testStringTwo" := FlagCodec(StringFlag, None)]
  }

  /** `boolean flags only`: a bare boolean flag is true, one followed by `false` is false. */
  lemma BooleanFlagsOnly()
    ensures Decode(TestFlags(), ["--testBoolOne", "--testBoolTwo", "false"])
            == Ok(Command([], map["--testBoolOne" := BoolValue(true), "--testBoolTwo" := BoolValue(false)]))
  {
    var items := ["--testBoolOne", "--testBoolTwo", "false"];
    assert PeekAt(TestFlags(), items, 1) == None;
    assert "false" !in TestFlags();
    assert PeekAt(TestFlags(), items, 2) == Some("false");
  }

  /** A repeated plain flag keeps its last value. */
  lemma RepeatedFlagLastWins()
    ensures Decode(TestFlags(), ["--testStringOne", "a", "--testStringOne", "b"])
            == Ok(Command([], map["--testStringOne" := StringValue("b")]))
  {
    var items := ["--testStringOne", "a", "--testStringOne", "b"];
    var m1 := map["--testStringOne" := StringValue("a")];
    assert "a" !in TestFlags() && "b" !in TestFlags();
    assert DecodeFrom(TestFlags(), items, 2, Command([], m1)) == Ok(Command([], m1["--testStringOne" := StringValue("b")]));
    assert m1["--testStringOne" := StringValue("b")] == map["--testStringOne" := StringValue("b")];
  }

  function Concat(a: FlagValue, b: FlagValue): FlagValue
  {
    if a.StringValue? && b.StringValue? then StringValue(a.s + b.s) else b
  }

  /** A repeated mergeable flag merges the earlier value with the later one. */
  lemma RepeatedFlagMerges()
    ensures var flags := map["--list" := FlagCodec(StringFlag, Some(Concat))];
            Decode(flags, ["--list", "a", "x", "--list", "b"])
            == Ok(Command(["x"], map["--list" := StringValue("ab")]))
  {
    var flags := map["--list" := FlagCodec(StringFlag, Some(Concat))];
    var items := ["--list", "a", "x", "--list", "b"];
    var m1 := map["--list" := StringValue("a")];
    assert "a" !in flags && "b" !in flags && "x" !in flags;
    assert DecodeFrom(flags, items, 3, Command(["x"], m1)) == Ok(Command(["x"], m1["--list" := Concat(StringValue("a"), StringValue("b"))]));
    assert items[2] == "x" && [] + ["x"] == ["x"];
    assert DecodeFrom(flags, items, 2, Command([], m1)) == DecodeFrom(flags, items, 3, Command(["x"], m1));
    assert DecodeFrom(flags, items, 0, Command([], map[])) == DecodeFrom(flags, items, 2, Command([], m1));
    assert Concat(StringValue("a"), StringValue("b")) == StringValue("ab");
    assert m1["--list" := StringValue("ab")] == map["--list" := StringValue("ab")];
  }
}

/**
 * Merge combinators for configuration codecs (src/common/codec/mergeable.ts).
 * A mergeable codec carries a `merge` function that combines two decoded
 * values, `b` taking priority; records of codecs merge field by field.
 * Records are modelled as maps from declared keys to values, an absent
 * (`undefined`) field as a missing key; a codec's `is` is a predicate and its
 * mergeability (`_tag === 'MergeableType'`) the presence of `merge`.
 */
module Mergeable {
  import opened Wrappers

  /** `reversePriority(f)`: merge with the arguments swapped. */
  function ReversePriority<V(!new)>(f: (V, V) -> V): (g: (V, V) -> V)
    ensures forall a, b :: g(a, b) == f(b, a)
  {
    (a, b) => f(b, a)
  }

  /** Swapping priority twice gives the merge back. */
  lemma ReverseTwice<V(!new)>(f: (V, V) -> V, a: V, b: V)
    ensures ReversePriority(ReversePriority(f))(a, b) == f(a, b)
  {
  }

  /** `booleanAnd.merge`: merging with `true` keeps the other value, and `false` wins. */
  function BooleanAnd(a: bool, b: bool): (r: bool)
    ensures a ==> r == b
    ensures !a || !b ==> !r
  {
    a && b
  }

  /** `booleanOr.merge`: merging with `false` keeps the other value, and `true` wins. */
  function BooleanOr(a: bool, b: bool): (r: bool)
    ensures !a ==> r == b
    ensures a || b ==> r
  {
    a || b
  }

  /** Both boolean merges are symmetric, so the order of the merged values does not matter. */
  lemma BooleanTables(a: bool, b: bool)
    ensures BooleanAnd(a, b) == BooleanAnd(b, a) && BooleanOr(a, b) == BooleanOr(b, a)
  {
  }

  /** `array(item).merge`: concatenation. */
  function ArrayMerge<T>(a: seq<T>, b: seq<T>): (r: seq<T>)
    ensures |r| == |a| + |b|
    ensures forall i | 0 <= i < |a| :: r[i] == a[i]
    ensures forall i | 0 <= i < |b| :: r[|a| + i] == b[i]
  {
    a + b
  }

  /** `[]` is an identity on both sides, and merging arrays is associative. */
  lemma ArrayMergeLaws<T>(a: seq<T>, b: seq<T>, c: seq<T>)
    ensures ArrayMerge([], a) == a && ArrayMerge(a, []) == a
    ensures ArrayMerge(ArrayMerge(a, b), c) == ArrayMerge(a, ArrayMerge(b, c))
  {
    assert [] + a == a;
    assert a + [] == a;
    assert (a + b) + c == a + (b + c);
  }

  /** A codec as far as merging sees it: its `is` guard and, for a mergeable codec, its `merge`. */
  datatype Codec<!V> = Codec(accepts: V -> bool, merge: Option<(V, V) -> V>)

  /** `mergeReplace`: `b` wins. */
  function MergeReplace<V(!new)>(a: V, b: V): (r: V)
    ensures r == b
  {
    b
  }

  /** The merge used for one declared field: the codec's own, or replacement. */
  function FieldMerge<V(!new)>(c: Codec<V>): (f: (V, V) -> V)
    ensures c.merge.Some? ==> f == c.merge.value
    ensures c.merge.None? ==> forall a, b :: f(a, b) == b
  {
    if c.merge.Some? then c.merge.value else MergeReplace
  }

  /** The declared fields of a record codec, in `Object.keys` order, and their codecs. */
  predicate Declared<K(!new), V(!new)>(keys: seq<K>, props: map<K, Codec<V>>)
  {
    forall i | 0 <= i < |keys| :: keys[i] in props
  }

  /** `propsMergeFuncs`: the field merges, built by a reduce over the declared keys. */
  function PropsMergeFuncs<K(!new), V(!new)>(keys: seq<K>, props: map<K, Codec<V>>): (m: map<K, (V, V) -> V>)
    requires Declared(keys, props)
    ensures forall k :: k in m <==> k in keys
    ensures forall k | k in m :: m[k] == FieldMerge(props[k])
    decreases |keys|
  {
    if keys == [] then map[]
    else
      var k := keys[|keys| - 1];
      PropsMergeFuncs(keys[..|keys| - 1], props)[k := FieldMerge(props[k])]
  }

  /** `partial(props).merge`: the reduce over the declared keys. */
  function PartialMerge<K(!new), V(!new)>(keys: seq<K>, funcs: map<K, (V, V) -> V>, a: map<K, V>, b: map<K, V>): (r: map<K, V>)
    requires forall i | 0 <= i < |keys| :: keys[i] in funcs
    ensures forall k :: k in r <==> k in keys && (k in a || k in b)
    ensures forall k | k in r ::
              r[k] == (if k !in b then a[k] else if k !in a then b[k] else funcs[k](a[k], b[k]))
    decreases |keys|
  {
    if keys == [] then map[]
    else
      var acc := PartialMerge(keys[..|keys| - 1], funcs, a, b);
      var k := keys[|keys| - 1];
      if k !in b then (if k in a then acc[k := a[k]] else acc - {k})
      else if k !in a then acc[k := b[k]]
      else acc[k := funcs[k](a[k], b[k])]
  }

  /** `partial(props)`: only declared keys survive; `b` wins where set, `a` is kept where `b` is unset. */
  function Partial<K(!new), V(!new)>(keys: seq<K>, props: map<K, Codec<V>>, a: map<K, V>, b: map<K, V>): (r: map<K, V>)
    requires Declared(keys, props)
    ensures forall k :: k in r <==> k in keys && (k in a || k in b)
    ensures forall k | k in r && k !in b :: r[k] == a[k]
    ensures forall k | k in r && k in b && k !in a :: r[k] == b[k]
    ensures forall k | k in r && k in a && k in b :: r[k] == FieldMerge(props[k])(a[k], b[k])
  {
    PartialMerge(keys, PropsMergeFuncs(keys, props), a, b)
  }

  /** `type(props).merge`: the reduce over the declared keys, all of which both records carry. */
  function TypeMerge<K(!new), V(!new)>(keys: seq<K>, funcs: map<K, (V, V) -> V>, a: map<K, V>, b: map<K, V>): (r: map<K, V>)
    requires forall i | 0 <= i < |keys| :: keys[i] in funcs && keys[i] in a && keys[i] in b
    ensures forall k :: k in r <==> k in keys
    ensures forall k | k in r :: r[k] == funcs[k](a[k], b[k])
    decreases |keys|
  {
    if keys == [] then map[]
    else
      var k := keys[|keys| - 1];
      TypeMerge(keys[..|keys| - 1], funcs, a, b)[k := funcs[k](a[k], b[k])]
  }

  /** `type(props)`: every declared field merged with its field merge; undeclared keys dropped. */
  function Type<K(!new), V(!new)>(keys: seq<K>, props: map<K, Codec<V>>, a: map<K, V>, b: map<K, V>): (r: map<K, V>)
    requires Declared(keys, props)
    requires forall i | 0 <= i < |keys| :: keys[i] in a && keys[i] in b
    ensures forall k :: k in r <==> k in keys
    ensures forall k | k in r :: r[k] == FieldMerge(props[k])(a[k], b[k])
  {
    TypeMerge(keys, PropsMergeFuncs(keys, props), a, b)
  }

  /** `codecs.find(c => c.accepts(x))`, as an index. */
  function FindCodec<V(!new)>(codecs: seq<Codec<V>>, x: V): (r: Option<nat>)
    ensures r.Some? ==> r.value < |codecs| && codecs[r.value].accepts(x)
                        && forall j | 0 <= j < r.value :: !codecs[j].accepts(x)
    ensures r.None? ==> forall j | 0 <= j < |codecs| :: !codecs[j].accepts(x)
    decreases |codecs|
  {
    if codecs == [] then None
    else if codecs[0].accepts(x) then Some(0)
    else
      var rest := FindCodec(codecs[1..], x);
      if rest.Some? then Some(rest.value + 1) else None
  }

  /** `i` is the first of `codecs` that accepts `x`. */
  predicate FirstAccepting<V(!new)>(codecs: seq<Codec<V>>, x: V, i: int)
  {
    0 <= i < |codecs| && codecs[i].accepts(x) && forall j | 0 <= j < i :: !codecs[j].accepts(x)
  }

  /** There is at most one first accepting codec. */
  lemma FirstAcceptingUnique<V(!new)>(codecs: seq<Codec<V>>, x: V, i: int, k: int)
    requires FirstAccepting(codecs, x, i) && FirstAccepting(codecs, x, k)
    ensures i == k
  {
  }

  /**
   * `union(codecs).merge`: the first codec that `a` satisfies decides; it
   * merges when `b` satisfies it too and it is mergeable, otherwise `b` wins.
   * `a` is a value of the union, so some codec accepts it.
   */
  function Union<V(!new)>(codecs: seq<Codec<V>>, a: V, b: V): (r: V)
    requires exists i | 0 <= i < |codecs| :: codecs[i].accepts(a)
    ensures forall i | FirstAccepting(codecs, a, i) ::
              r == (if codecs[i].accepts(b) && codecs[i].merge.Some? then codecs[i].merge.value(a, b) else b)
  {
    var k := FindCodec(codecs, a);
    assert FirstAccepting(codecs, a, k.value);
    var c := codecs[k.value];
    var r := if c.accepts(b) && c.merge.Some? then c.merge.value(a, b) else b;
    assert forall i | FirstAccepting(codecs, a, i) :: i == k.value by {
      forall i | FirstAccepting(codecs, a, i) ensures i == k.value {
        FirstAcceptingUnique(codecs, a, i, k.value);
      }
    }
    r
  }

  /** A union of codecs none of which is mergeable always lets `b` win. */
  lemma UnionOfPlain<V(!new)>(codecs: seq<Codec<V>>, a: V, b: V)
    requires exists i | 0 <= i < |codecs| :: codecs[i].accepts(a)
    requires forall i | 0 <= i < |codecs| :: codecs[i].merge.None?
    ensures Union(codecs, a, b) == b
  {
    var i := FindCodec(codecs, a);
  }

  // ----- The examples of src/common/codec/mergeable.test.ts

  function AnyArray(x: seq<string>): bool { true }

  /** `partial({ a: pArray, b: mArray })`: the plain array field is replaced, the mergeable one concatenated. */
  lemma PartialContainsArray()
    ensures var props := map["a" := Codec(AnyArray, None), "b" := Codec(AnyArray, Some(ArrayMerge))];
            Partial(["a", "b"], props, map["a" := ["elem1"], "b" := ["elem1"]], map["a" := ["elem2"], "b" := ["elem2"]])
            == map["a" := ["elem2"], "b" := ["elem1", "elem2"]]
  {
    var props := map["a" := Codec(AnyArray, None), "b" := Codec(AnyArray, Some(ArrayMerge))];
    var r := Partial(["a", "b"], props, map["a" := ["elem1"], "b" := ["elem1"]], map["a" := ["elem2"], "b" := ["elem2"]]);
    assert "a" in r && "b" in r;
    assert r["a"] == ["elem2"];
    assert r["b"] == ArrayMerge(["elem1"], ["elem2"]) == ["elem1", "elem2"];
    assert r.Keys == {"a", "b"};
  }

  /** A value that is a string or an array of strings. */
  datatype StrOrArray = Str(s: string) | Arr(items: seq<string>)

  /** `mArray.merge`: two arrays concatenate, `a`'s items first; otherwise `b` wins. */
  function MergeArr(a: StrOrArray, b: StrOrArray): (r: StrOrArray)
    ensures a.Arr? && b.Arr? ==> r.Arr? && |r.items| == |a.items| + |b.items|
                                 && r.items[..|a.items|] == a.items && r.items[|a.items|..] == b.items
    ensures !(a.Arr? && b.Arr?) ==> r == b
  {
    if a.Arr? && b.Arr? then Arr(a.items + b.items) else b
  }

  /** `union([ t.string, mArray ])` */
  function StrOrArrayCodecs(): (r: seq<Codec<StrOrArray>>)
    ensures |r| == 2
    ensures forall x :: r[0].accepts(x) <==> x.Str?
    ensures forall x :: r[1].accepts(x) <==> x.Arr?
  {
    [Codec((x: StrOrArray) => x.Str?, None), Codec((x: StrOrArray) => x.Arr?, Some(MergeArr))]
  }

  /** With `union([ t.string, mArray ])`, arrays concatenate and any other pairing takes `b`. */
  lemma UnionIncludedArray(a: StrOrArray, b: StrOrArray)
    ensures var codecs := StrOrArrayCodecs();
            (codecs[0].accepts(a) || codecs[1].accepts(a)) && Union(codecs, a, b) == (if a.Arr? && b.Arr? then Arr(a.items + b.items) else b)
  {
    var codecs := StrOrArrayCodecs();
    if a.Str? {
      assert codecs[0].accepts(a);
    } else {
      assert codecs[1].accepts(a) && !codecs[0].accepts(a);
    }
  }
}

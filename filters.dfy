/**
 * Item filters (src/filters/base.ts, src/common/filter.ts,
 * src/main/classify/filter.ts, src/render/load/filter.ts). A filter accepts
 * or rejects an item; filters combine by conjunction. The configured
 * classify and load filters are exclusions: each rejects the items that
 * match it.
 */
module Filters {
  import opened Paths
  import opened Mime

  /** `common.merge(...funcs)`: `funcs.every(func => func(item))`. */
  function Every<T>(fs: seq<T -> bool>, item: T): (r: bool)
    ensures r <==> forall i | 0 <= i < |fs| :: fs[i](item)
    decreases |fs|
  {
    fs == [] || (fs[0](item) && Every(fs[1..], item))
  }

  /** Merging concatenated filter lists is the conjunction of merging each. */
  lemma {:induction false} EveryConcat<T>(a: seq<T -> bool>, b: seq<T -> bool>, item: T)
    ensures Every(a + b, item) == (Every(a, item) && Every(b, item))
    decreases |a|
  {
    if a != [] {
      assert (a + b)[1..] == a[1..] + b;
      EveryConcat(a[1..], b, item);
    } else {
      assert a + b == b;
    }
  }

  /** An empty merge accepts every item, and a merge of one filter is that filter. */
  lemma EveryUnit<T>(f: T -> bool, item: T)
    ensures Every([], item)
    ensures Every([f], item) == f(item)
  {
  }

  /**
   * `filters/base.merge(...filters)(item)`: the loop that returns false at
   * the first rejecting filter. `tested` counts the filters called.
   */
  method MergeFilters<T>(filters: seq<T -> bool>, item: T) returns (r: bool, ghost tested: nat)
    ensures r == Every(filters, item)
    ensures tested <= |filters| && (r <==> tested == |filters| && forall i | 0 <= i < |filters| :: filters[i](item))
    ensures !r ==> tested >= 1 && !filters[tested - 1](item) && forall i | 0 <= i < tested - 1 :: filters[i](item)
  {
    tested := 0;
    for i := 0 to |filters|
      invariant tested == i
      invariant forall j | 0 <= j < i :: filters[j](item)
    {
      tested := tested + 1;
      if !filters[i](item) {
        return false, tested;
      }
    }
    return true, tested;
  }

  /** ASCII `toUpperCase` on one character. */
  function UpperChar(c: char): char
  {
    if 'a' <= c <= 'z' then (c as int - 32) as char else c
  }

  /** `kindName(kind)`: the kind with its first character upper-cased, then `Filter`; `kind[0]` must exist. */
  function KindName(kind: string): (r: string)
    requires kind != []
    ensures |r| == |kind| + 6
    ensures r[0] == UpperChar(kind[0]) && r[1..|kind|] == kind[1..] && r[|kind|..] == "Filter"
  {
    var r := [UpperChar(kind[0])] + kind[1..] + "Filter";
    assert r[1..|kind|] == kind[1..];
    assert r[|kind|..] == "Filter";
    r
  }

  // ----- Classify filters: on the basename of the item's URL string

  /** A classified item; the filters read only its URL string. */
  datatype Protocol = FileSystem | Http | Https
  datatype ClassifiedItem = ClassifiedItem(protocol: Protocol, urlString: string)

  /** A configured classify filter; a regular expression is given as the predicate its `test` computes. */
  datatype ClassifyFilter =
    | Exact(target: string)
    | Prefix(prefix: string)
    | Suffix(suffix: string)
    | RegExp(test: string -> bool)

  /** Whether the basename `name` matches `f` in the sense its kind names. */
  ghost predicate Matches(f: ClassifyFilter, name: string)
  {
    match f
    case Exact(target) => name == target
    case Prefix(prefix) => exists rest :: name == prefix + rest
    case Suffix(suffix) => exists rest :: name == rest + suffix
    case RegExp(test) => test(name)
  }

  /**
   * Whether the basename `name` is excluded by `f`: the test of `buildExact`,
   * `buildPrefix`, `buildSuffix` or `buildRegExp`, which holds exactly when
   * the name matches.
   */
  function RejectsName(f: ClassifyFilter, name: string): (r: bool)
    ensures r <==> Matches(f, name)
  {
    match f
    case Exact(target) => name == target
    case Prefix(prefix) =>
      var r := |prefix| <= |name| && name[..|prefix|] == prefix;
      assert r ==> name == prefix + name[|prefix|..];
      r
    case Suffix(suffix) =>
      var r := |suffix| <= |name| && name[|name| - |suffix|..] == suffix;
      assert r ==> name == name[..|name| - |suffix|] + suffix;
      r
    case RegExp(test) => test(name)
  }

  /** A classify filter accepts an item exactly when the basename of its URL does not match. */
  function ClassifyAccepts(f: ClassifyFilter, item: ClassifiedItem): (r: bool)
    ensures r <==> !Matches(f, Basename(item.urlString))
  {
    !RejectsName(f, Basename(item.urlString))
  }

  /** `merge` of classify filters: accepted when no filter's exclusion matches. */
  lemma ClassifyMerge(fs: seq<ClassifyFilter>, item: ClassifiedItem)
    ensures Every(seq(|fs|, i requires 0 <= i < |fs| => (x: ClassifiedItem) => ClassifyAccepts(fs[i], x)), item)
            <==> forall i | 0 <= i < |fs| :: !Matches(fs[i], Basename(item.urlString))
  {
    var accepts := seq(|fs|, i requires 0 <= i < |fs| => (x: ClassifiedItem) => ClassifyAccepts(fs[i], x));
    assert forall i | 0 <= i < |fs| :: accepts[i](item) == ClassifyAccepts(fs[i], item);
  }

  /** `^[0-9]+$`, the pattern of the regular-expression example. */
  predicate AllDigits(s: string)
  {
    s != [] && forall j | 0 <= j < |s| :: '0' <= s[j] <= '9'
  }

  function FsFile(url: string): ClassifiedItem { ClassifiedItem(FileSystem, url) }

  /** A file URL without `/` is judged on the whole URL. */
  lemma ClassifyPlainName(f: ClassifyFilter, u: string)
    requires NoSlash(u)
    ensures ClassifyAccepts(f, FsFile(u)) == !RejectsName(f, u)
  {
    BasenameOfPlain(u);
  }

  // ----- Load filters: on the item's MIME data

  /** A loaded item; the filters read only its MIME data. */
  datatype LoadedItem = LoadedItem(name: string, mime: Data, size: int, objectURL: string)

  /** A configured load filter. */
  datatype LoadFilter = MimeTypeFilter(mimeType: MimeType) | MimeSubtypeFilter(mimeSubtype: Subtype)

  /** `buildMIMEType` and `buildMIMESubtype`: a filter rejects exactly the items of its MIME type, respectively subtype. */
  function LoadAccepts(f: LoadFilter, item: LoadedItem): (r: bool)
    ensures !r <==> (if f.MimeTypeFilter? then item.mime.kind == f.mimeType else item.mime.subtype == f.mimeSubtype)
  {
    match f
    case MimeTypeFilter(t) => item.mime.kind != t
    case MimeSubtypeFilter(s) => item.mime.subtype != s
  }

  /** A load filter looks at nothing but the MIME data: items with the same MIME data are treated alike. */
  lemma LoadReadsOnlyMime(f: LoadFilter, a: LoadedItem, b: LoadedItem)
    requires a.mime == b.mime
    ensures LoadAccepts(f, a) == LoadAccepts(f, b)
  {
  }

}

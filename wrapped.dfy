/**
 * Cursors that wrap another cursor (`FilteredIterator` and
 * `TransformedIterator` in src/common/preiterable/async.ts). Each is proved
 * to step as a plain cursor over the filtered, respectively transformed,
 * items would.
 */
module Wrapped {
  import opened Wrappers
  import opened Direction
  import opened Common

  /** The items of `s` that `f` accepts, in order. */
  function Keep<T>(s: seq<T>, f: T -> bool): (r: seq<T>)
    ensures |r| <= |s|
  {
    if s == [] then []
    else Keep(s[..|s| - 1], f) + (if f(s[|s| - 1]) then [s[|s| - 1]] else [])
  }

  lemma KeepStep<T>(s: seq<T>, f: T -> bool, j: int)
    requires 0 <= j < |s|
    ensures Keep(s[..j + 1], f) == Keep(s[..j], f) + (if f(s[j]) then [s[j]] else [])
  {
    assert s[..j + 1][..j] == s[..j];
  }

  /** What is kept of a prefix is a prefix of what is kept. */
  lemma {:induction false} KeepPrefix<T>(s: seq<T>, f: T -> bool, i: int, j: int)
    requires 0 <= i <= j <= |s|
    ensures Keep(s[..i], f) <= Keep(s[..j], f)
    decreases j - i
  {
    if i < j {
      KeepPrefix(s, f, i, j - 1);
      KeepStep(s, f, j - 1);
    }
  }

  /** The kept item that `s[j]` becomes, when `f` accepts it. */
  lemma KeptAt<T>(s: seq<T>, f: T -> bool, j: int)
    requires 0 <= j < |s| && f(s[j])
    ensures |Keep(s[..j], f)| < |Keep(s, f)|
    ensures Keep(s, f)[|Keep(s[..j], f)|] == s[j]
  {
    KeepStep(s, f, j);
    KeepPrefix(s, f, j + 1, |s|);
    assert s[..|s|] == s;
  }

  /** A filtered cursor rests before all items, after all items, or on an accepted item. */
  predicate AtMatch<T>(s: seq<T>, f: T -> bool, idx: int)
  {
    idx == -1 || idx == |s| || (0 <= idx < |s| && f(s[idx]))
  }

  /** The position, among the kept items, of a filtered cursor at `idx`. */
  function KeptPos<T>(s: seq<T>, f: T -> bool, idx: int): (p: int)
    requires -1 <= idx <= |s|
    ensures -1 <= p <= |Keep(s, f)|
    ensures p == -1 <==> idx == -1
    ensures AtMatch(s, f, idx) ==> (p == |Keep(s, f)| <==> idx == |s|)
  {
    if idx == -1 then -1
    else if idx == |s| then |Keep(s, f)|
    else
      KeepPrefix(s, f, idx, |s|);
      assert s[..|s|] == s;
      if f(s[idx]) then KeptAt(s, f, idx); |Keep(s[..idx], f)|
      else |Keep(s[..idx], f)|
  }

  /** The accepted items a cursor at `idx` has behind it when it walks in `d`. */
  function KeptBehind<T>(s: seq<T>, f: T -> bool, idx: int, d: Direction): int
    requires -1 <= idx <= |s|
  {
    if d == Next then |Keep(s[..Min(idx + 1, |s|)], f)|
    else |Keep(s, f)| - |Keep(s[..Max(idx, 0)], f)|
  }

  lemma KeptBehindAtRest<T>(s: seq<T>, f: T -> bool, idx: int, d: Direction)
    requires -1 <= idx <= |s| && AtMatch(s, f, idx)
    ensures KeptBehind(s, f, idx, d) == Behind(d, KeptPos(s, f, idx), |Keep(s, f)|)
  {
    assert s[..|s|] == s;
    if 0 <= idx < |s| {
      KeepStep(s, f, idx);
      KeepPrefix(s, f, idx + 1, |s|);
    }
  }

  /**
   * One inner step skipping an item the filter refuses leaves the measure
   * unchanged; finding an accepted item or the edge settles the outer
   * step exactly as a cursor over the kept items would.
   */
  lemma {:induction false} FilterStep<T>(s: seq<T>, f: T -> bool, idx: int, d: Direction, p: int)
    requires -1 <= idx <= |s| && -1 <= p <= |Keep(s, f)|
    requires KeptBehind(s, f, idx, d) == Behind(d, p, |Keep(s, f)|)
    requires d == Next ==> (p == |Keep(s, f)| ==> idx == |s|)
    requires d == Previous ==> (p == -1 ==> idx == -1)
    ensures var m := GetAt(s, idx, d);
            if m.step.Yield? && !f(m.step.value) then
              KeptBehind(s, f, m.idx, d) == Behind(d, p, |Keep(s, f)|)
              && (d == Next ==> (p == |Keep(s, f)| ==> m.idx == |s|))
              && (d == Previous ==> (p == -1 ==> m.idx == -1))
            else
              AtMatch(s, f, m.idx)
              && Moved(KeptPos(s, f, m.idx), m.step) == GetAt(Keep(s, f), p, d)
  {
    var m := GetAt(s, idx, d);
    var k := Keep(s, f);
    assert s[..|s|] == s;
    if m.step.Yield? {
      var j := m.idx;
      KeepStep(s, f, j);
      if f(s[j]) {
        KeptAt(s, f, j);
        KeepPrefix(s, f, j + 1, |s|);
      }
    }
  }

  /** `FilteredIterator`: steps over the items the filter accepts. */
  class FilteredIterator<T> {
    /** the wrapped cursor (`iterator` in the source) */
    const inner: ArrayIterator<T>
    const filter: T -> bool

    ghost predicate Valid()
      reads this, inner, inner.data
    {
      inner.Valid() && AtMatch(inner.data.items, filter, inner.idx)
    }

    /** The position of this cursor among the accepted items. */
    ghost function Position(): (p: int)
      reads this, inner, inner.data
      requires inner.Valid()
      ensures -1 <= p <= |Keep(inner.data.items, filter)|
    {
      KeptPos(inner.data.items, filter, inner.idx)
    }

    constructor (inner: ArrayIterator<T>, filter: T -> bool)
      requires inner.Valid() && AtMatch(inner.data.items, filter, inner.idx)
      ensures this.inner == inner && this.filter == filter && Valid()
    {
      this.inner := inner;
      this.filter := filter;
    }

    function Size(): nat
      reads inner, inner.data
    {
      inner.Size()
    }

    method Jump(term: Term)
      requires Valid()
      modifies inner
      ensures Valid()
      ensures Position() == JumpTo(|Keep(inner.data.items, filter)|, term)
    {
      inner.Jump(term);
    }

    /** A step is the step a cursor over the accepted items would take. */
    method Get(d: Direction) returns (r: Step<T>)
      requires Valid()
      modifies inner
      ensures Valid()
      ensures r.Yield? ==> filter(r.value)
      ensures Moved(Position(), r) == GetAt(Keep(inner.data.items, filter), old(Position()), d)
    {
      ghost var s := inner.data.items;
      ghost var p := Position();
      KeptBehindAtRest(s, filter, inner.idx, d);
      while true
        invariant inner.Valid() && inner.data.items == s
        invariant KeptBehind(s, filter, inner.idx, d) == Behind(d, p, |Keep(s, filter)|)
        invariant d == Next ==> (p == |Keep(s, filter)| ==> inner.idx == |s|)
        invariant d == Previous ==> (p == -1 ==> inner.idx == -1)
        decreases if d == Next then |s| - inner.idx else inner.idx + 1
      {
        FilterStep(s, filter, inner.idx, d, p);
        var res := inner.Get(d);
        if !res.Yield? || filter(res.value) {
          return res;
        }
      }
    }
  }

  /** `f` applied to every item of `s`. */
  function Map<T, U>(s: seq<T>, f: T -> U): (r: seq<U>)
    ensures |r| == |s|
    ensures forall i | 0 <= i < |s| :: r[i] == f(s[i])
  {
    seq(|s|, i requires 0 <= i < |s| => f(s[i]))
  }

  /** `TransformedIterator`: steps over the underlying items, transformed. */
  class TransformedIterator<T, U> {
    /** the wrapped cursor (`iterator` in the source) */
    const inner: ArrayIterator<T>
    const transform: T -> U

    constructor (inner: ArrayIterator<T>, transform: T -> U)
      ensures this.inner == inner && this.transform == transform
    {
      this.inner := inner;
      this.transform := transform;
    }

    function Size(): nat
      reads inner, inner.data
    {
      inner.Size()
    }

    method Jump(term: Term)
      modifies inner
      ensures inner.Valid() && inner.idx == JumpTo(|inner.data.items|, term)
    {
      inner.Jump(term);
    }

    /** A step is the step a cursor over the transformed items would take. */
    method Get(d: Direction) returns (r: Step<U>)
      requires inner.Valid()
      modifies inner
      ensures inner.Valid()
      ensures Moved(inner.idx, r) == GetAt(Map(inner.data.items, transform), old(inner.idx), d)
    {
      var res := inner.Get(d);
      r := match res
        case Yield(v) => Yield(transform(v))
        case Done(t) => Done(t)
        case Returned => Returned;
    }
  }
}

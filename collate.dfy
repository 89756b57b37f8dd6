/**
 * Homogeneous collation: `HomoCollatable` (src/common/preiterable/async.ts)
 * and its synchronous twin `MixedIterator` (src/common/preiterable/sync.ts)
 * turn a pull source of leaves and recursables into a source of recursables
 * only, by gathering every maximal run of consecutive leaves into one nested
 * lazy array. `Runs` says what comes out; `Collatable.Next` is proved to pull
 * it in order, and the lemmas show that nothing is lost, reordered or split,
 * and that the result is fit for a `HomoStack`.
 */
module Collate {
  import opened Wrappers
  import opened Direction
  import opened Common
  import opened Flatten
  import Lazy
  import HomoStack

  /** The length of the run of leaves at the front of `s`. */
  function LeafRun<T>(s: seq<Item<T>>): (n: nat)
    ensures n <= |s|
    ensures n < |s| ==> s[n].Nested?
    decreases |s|
  {
    if s == [] || s[0].Nested? then 0 else 1 + LeafRun(s[1..])
  }

  /** The run at the front is made of leaves. */
  lemma {:induction false} LeafRunLeaves<T>(s: seq<Item<T>>)
    ensures AllLeaves(s[..LeafRun(s)])
    decreases |s|
  {
    if s != [] && s[0].Leaf? {
      LeafRunLeaves(s[1..]);
      assert s[..LeafRun(s)] == [s[0]] + s[1..][..LeafRun(s[1..])];
    }
  }

  /** The collated source: each maximal run of leaves becomes one nested node; recursables pass through. */
  function Runs<T>(s: seq<Item<T>>): (r: seq<Item<T>>)
    ensures |r| <= |s|
    decreases |s|
  {
    if s == [] then []
    else if s[0].Nested? then [s[0]] + Runs(s[1..])
    else
      var n := LeafRun(s);
      [Nested(s[..n])] + Runs(s[n..])
  }

  /** Collation keeps the leaves and their order. */
  lemma {:induction false} RunsFlat<T>(s: seq<Item<T>>)
    ensures Flat(Runs(s)) == Flat(s)
    decreases |s|
  {
    if s == [] {
    } else if s[0].Nested? {
      RunsFlat(s[1..]);
      FlatConcat([s[0]], Runs(s[1..]));
      FlatConcat([s[0]], s[1..]);
      assert [s[0]] + s[1..] == s;
    } else {
      var n := LeafRun(s);
      RunsFlat(s[n..]);
      FlatConcat([Nested(s[..n])], Runs(s[n..]));
      assert Flat([Nested(s[..n])]) == Flat(s[..n]) by {
        assert [Nested(s[..n])][1..] == [];
      }
      FlatConcat(s[..n], s[n..]);
      assert s[..n] + s[n..] == s;
    }
  }

  /** A run of leaves, whole, is one nested node. */
  lemma {:induction false} LeafRunAll<T>(s: seq<Item<T>>)
    requires AllLeaves(s)
    ensures LeafRun(s) == |s|
    decreases |s|
  {
    if s != [] {
      LeafRunAll(s[1..]);
    }
  }

  lemma {:induction false} RunsOfLeaves<T>(s: seq<Item<T>>)
    requires s != [] && AllLeaves(s)
    ensures Runs(s) == [Nested(s)]
  {
    LeafRunAll(s);
    assert s[..|s|] == s;
    assert s[|s|..] == [];
  }

  lemma {:induction false} LeafRunConcat<T>(a: seq<Item<T>>, b: seq<Item<T>>)
    requires LeafRun(a) < |a| || b == [] || b[0].Nested?
    ensures LeafRun(a + b) == LeafRun(a)
    decreases |a|
  {
    if a == [] {
      assert a + b == b;
    } else if a[0].Leaf? {
      LeafRunConcat(a[1..], b);
      assert (a + b)[1..] == a[1..] + b;
    }
  }

  /**
   * Collation splits where a recursable stands: the segments on either side
   * of a boundary next to a recursable are collated independently. With
   * `RunsOfLeaves` this pins down every run as maximal.
   */
  lemma {:induction false} RunsSplit<T>(a: seq<Item<T>>, b: seq<Item<T>>)
    requires a == [] || b == [] || a[|a| - 1].Nested? || b[0].Nested?
    ensures Runs(a + b) == Runs(a) + Runs(b)
    decreases |a|
  {
    if a == [] {
      assert a + b == b;
    } else if a[0].Nested? {
      assert (a + b)[1..] == a[1..] + b;
      RunsSplit(a[1..], b);
    } else {
      var n := LeafRun(a);
      assert n == |a| ==> a[|a| - 1].Leaf? by {
        LeafRunLeaves(a);
        if n == |a| {
          assert a[..n][|a| - 1] == a[|a| - 1];
        }
      }
      RunsSplitLeaf(a, b);
      RunsSplit(a[n..], b);
    }
  }

  /** One step of `RunsSplit`: a run at the front of `a` is the run at the front of `a + b`. */
  lemma {:induction false} RunsSplitLeaf<T>(a: seq<Item<T>>, b: seq<Item<T>>)
    requires a != [] && a[0].Leaf?
    requires LeafRun(a) < |a| || b == [] || b[0].Nested?
    ensures var n := LeafRun(a);
            Runs(a + b) == [Nested(a[..n])] + Runs(a[n..] + b)
  {
    var n := LeafRun(a);
    LeafRunConcat(a, b);
    assert (a + b)[..n] == a[..n];
    assert (a + b)[n..] == a[n..] + b;
  }

  /**
   * The collated source holds recursables only: each is a recursable of the
   * source, or a non-empty run of the source's leaves.
   */
  lemma {:induction false} RunsNested<T>(s: seq<Item<T>>, i: nat)
    requires i < |Runs(s)|
    ensures Runs(s)[i].Nested?
    ensures Runs(s)[i] in s || (Runs(s)[i].children != [] && AllLeaves(Runs(s)[i].children))
    decreases |s|
  {
    if s[0].Nested? {
      if i > 0 {
        RunsNested(s[1..], i - 1);
      }
    } else {
      var n := LeafRun(s);
      if i > 0 {
        RunsNested(s[n..], i - 1);
      } else {
        LeafRunLeaves(s);
      }
    }
  }

  /** If every recursable in the source is homogeneous, so is the collated source. */
  lemma {:induction false} RunsHomogeneous<T>(s: seq<Item<T>>)
    requires forall i | 0 <= i < |s| && s[i].Nested? :: Homogeneous(s[i].children)
    ensures Homogeneous(Runs(s))
  {
    var r := Runs(s);
    forall i | 0 <= i < |r|
      ensures r[i].Nested? && Homogeneous(r[i].children)
    {
      RunsNested(s, i);
      if r[i] !in s {
        assert AllLeaves(r[i].children);
      }
    }
  }

  /** A leaf in front opens a run that takes every leaf after it. */
  lemma {:induction false} RunsCons<T>(x: Item<T>, s: seq<Item<T>>)
    requires x.Leaf?
    ensures Runs([x] + s) == [Nested([x] + s[..LeafRun(s)])] + Runs(s[LeafRun(s)..])
  {
    var t := [x] + s;
    assert t[1..] == s;
    var k := LeafRun(s);
    assert t[..k + 1] == [x] + s[..k];
    assert t[k + 1..] == s[k..];
  }

  /**
   * `HomoCollatable` over the pull source `collator`. `draining` is set while
   * `loadNext` is the reassigned closure that first drains the pending run.
   */
  class Collatable<T> {
    const collator: Lazy.Source<Item<T>>
    var draining: bool
    /** what `next` has returned so far */
    ghost var emitted: seq<Item<T>>
    /** the items the collator has not handed out yet */
    ghost var unpulled: seq<Item<T>>
    /** everything `next` hands out, in order: `Runs` of the source */
    ghost const collated: seq<Item<T>>

    /** What is still to come. */
    ghost function Rest(): seq<Item<T>>
      reads this
    {
      if draining then Runs(unpulled[LeafRun(unpulled)..]) else Runs(unpulled)
    }

    ghost predicate Valid()
      reads this, collator
    {
      collator.Valid()
      && unpulled == collator.items[collator.pos..]
      && emitted + Rest() == collated
    }

    constructor (items: seq<Item<T>>)
      ensures Valid() && fresh(collator) && collator.items == items && emitted == []
      ensures collated == Runs(items)
    {
      collator := new Lazy.Source(items);
      draining := false;
      emitted := [];
      unpulled := items;
      collated := Runs(items);
      assert items[0..] == items;
    }

    /** `collator.next()`, keeping track of what is left. */
    method Pull() returns (r: Option<Item<T>>)
      requires collator.Valid() && unpulled == collator.items[collator.pos..]
      modifies this, collator
      ensures collator.Valid() && unpulled == collator.items[collator.pos..]
      ensures draining == old(draining) && emitted == old(emitted)
      ensures old(unpulled) == [] ==> r == None && unpulled == [] && collator.pos == old(collator.pos)
      ensures old(unpulled) != [] ==> r == Some(old(unpulled)[0]) && unpulled == old(unpulled)[1..]
                                      && collator.pos == old(collator.pos) + 1
    {
      r := collator.Next();
      if r.Some? {
        assert collator.items[collator.pos..] == unpulled[1..];
        unpulled := unpulled[1..];
      }
    }

    /** The pending run's generator and `preload`: pull until a recursable or the end. */
    method Drain() returns (last: Option<Item<T>>)
      requires collator.Valid() && unpulled == collator.items[collator.pos..]
      modifies this, collator
      ensures collator.Valid() && unpulled == collator.items[collator.pos..]
      ensures draining == old(draining) && emitted == old(emitted)
      ensures var n := LeafRun(old(unpulled));
              (n == |old(unpulled)| ==> last == None && unpulled == [])
              && (n < |old(unpulled)| ==> last == Some(old(unpulled)[n]) && unpulled == old(unpulled)[n + 1..])
    {
      ghost var s := unpulled;
      ghost var n := LeafRun(s);
      LeafRunLeaves(s);
      assert forall j | 0 <= j < n :: s[j].Leaf? by {
        forall j | 0 <= j < n ensures s[j].Leaf? {
          assert s[..n][j] == s[j];
        }
      }
      last := Pull();
      ghost var i := 1;
      while last.Some? && last.value.Leaf?
        invariant collator.Valid() && unpulled == collator.items[collator.pos..]
        invariant draining == old(draining) && emitted == old(emitted)
        invariant 0 < i <= |s| + 1
        invariant i <= |s| ==> unpulled == s[i..] && last == Some(s[i - 1])
        invariant i > |s| ==> unpulled == [] && last == None
        invariant last.Some? && last.value.Leaf? ==> i <= n
        invariant i <= n + 1
        decreases |unpulled|, last.Some?
      {
        last := Pull();
        assert i < |s| ==> s[i..][1..] == s[i + 1..];
        i := i + 1;
      }
    }

    /**
     * `loadNext`: the collator's `next`, or, while a run is pending, the
     * closure that drains it first and then hands over what ended it.
     */
    method LoadNext() returns (res: Option<Item<T>>)
      requires Valid()
      modifies this, collator
      ensures collator.Valid() && unpulled == collator.items[collator.pos..]
      ensures !draining && emitted == old(emitted)
      ensures res.None? ==> old(Rest()) == [] && unpulled == []
      ensures res.Some? ==> old(Rest()) == Runs([res.value] + unpulled)
      ensures !old(draining) ==> collator.pos == Min(old(collator.pos) + 1, |collator.items|)
    {
      ghost var s := unpulled;
      if draining {
        res := Drain();
        ghost var n := LeafRun(s);
        if n < |s| {
          assert s[n..] == [s[n]] + s[n + 1..];
        } else {
          assert s[n..] == [];
        }
      } else {
        res := Pull();
        if s != [] {
          assert s == [s[0]] + s[1..];
        }
      }
      draining := false;
    }

    /**
     * `next`: the following recursable of the collated source. A leaf starts a
     * run; only that first leaf is pulled now, the rest of the run is pulled
     * by the next call, which then returns what ended the run.
     */
    method Next() returns (r: Option<Item<T>>)
      requires Valid()
      modifies this, collator
      ensures Valid()
      ensures old(Rest()) == [] ==> r == None && Rest() == [] && emitted == old(emitted)
      ensures old(Rest()) != [] ==> r == Some(old(Rest())[0]) && Rest() == old(Rest())[1..]
                                    && emitted == old(emitted) + [r.value]
      ensures !old(draining) ==> collator.pos == Min(old(collator.pos) + 1, |collator.items|)
    {
      var res := LoadNext();
      if res.None? {
        return None;
      }
      r := BuildValue(res.value);
    }

    /** `buildValue`: a recursable as it is, a leaf as the start of a pending run. */
    method BuildValue(x: Item<T>) returns (r: Option<Item<T>>)
      requires collator.Valid() && unpulled == collator.items[collator.pos..] && !draining
      requires emitted + Runs([x] + unpulled) == collated
      modifies this
      ensures Valid() && r.Some? && emitted == old(emitted) + [r.value]
      ensures Runs([x] + unpulled) == [r.value] + Rest()
    {
      if x.Nested? {
        assert ([x] + unpulled)[1..] == unpulled;
        emitted := emitted + [x];
        return Some(x);
      }
      var run := BuildLazyValue(x);
      r := Some(Nested(run));
    }

    /**
     * `buildLazyValue`: the run that `x` opens, as the lazy array its
     * generator fills (the leaves after `x`, up to the next recursable).
     */
    method BuildLazyValue(x: Item<T>) returns (run: seq<Item<T>>)
      requires collator.Valid() && unpulled == collator.items[collator.pos..] && !draining && x.Leaf?
      requires emitted + Runs([x] + unpulled) == collated
      modifies this
      ensures Valid() && draining && emitted == old(emitted) + [Nested(run)]
      ensures Runs([x] + unpulled) == [Nested(run)] + Rest()
    {
      ghost var s := unpulled;
      var k := LeafRun(collator.items[collator.pos..]);
      run := [x] + collator.items[collator.pos..collator.pos + k];
      assert Runs([x] + s) == [Nested(run)] + Runs(s[k..]) by {
        assert collator.items[collator.pos..collator.pos + k] == s[..k];
        RunsCons(x, s);
      }
      draining := true;
      emitted := emitted + [Nested(run)];
    }
  }

  /** `k` successive `next` calls. */
  method PullMany<T>(c: Collatable<T>, k: nat) returns (out: seq<Item<T>>)
    requires c.Valid()
    modifies c, c.collator
    ensures c.Valid() && c.emitted == old(c.emitted) + out
    ensures k >= |old(c.Rest())| ==> c.Rest() == []
  {
    ghost var total := |c.collated| - |c.emitted|;
    ghost var emitted := c.emitted;
    out := [];
    var i := 0;
    while i < k
      invariant 0 <= i <= k && c.Valid() && c.emitted == emitted + out
      invariant |out| == Min(i, total) && |c.Rest()| == total - |out|
    {
      var r := c.Next();
      if r.Some? {
        out := out + [r.value];
      }
      i := i + 1;
    }
  }

  /**
   * `HomoStack.collate` then `HomoStack.flatten`: the collated source,
   * flattened, walks forward and back over the original leaves.
   */
  method CollateThenFlatten<T(!new)>(raw: seq<Item<T>>) returns (forward: seq<Step<T>>, backward: seq<Step<T>>)
    requires forall i | 0 <= i < |raw| && raw[i].Nested? :: Homogeneous(raw[i].children)
    ensures forward == Yields(Flat(raw)) + [Done(EOD), Done(EOD)]
    ensures backward == Yields(Reverse(Flat(raw))) + [Done(SOD), Done(SOD)]
  {
    var c := new Collatable(raw);
    var collated := PullMany(c, |raw|);
    assert collated == Runs(raw) by {
      assert c.emitted + [] == c.collated;
    }
    RunsHomogeneous(raw);
    RunsFlat(raw);
    BasicLoaderLoads<T>();
    var it := new HomoStack.HomoStackIterator(collated, BasicLoader);
    ForwardFromStart(Flat(raw));
    forward := HomoStack.WalkHomo(it, Next, |Flat(raw)| + 2);
    BackwardFromEnd(Flat(raw));
    backward := HomoStack.WalkHomo(it, Previous, |Flat(raw)| + 2);
  }
}

/**
 * The lazy array (`LazyArray` and its `LazyArrayIterator` in
 * src/common/preiterable/async.ts and src/common/preiterable/sync.ts): an
 * array filled on demand from a one-shot source, whose cursors pull at most
 * one item per step and behave exactly as cursors over the whole source.
 *
 * The two files hold the same algorithm; they differ in one place, which the
 * `sync` flag selects: when the source first runs dry, the synchronous cursor
 * returns the source's own `done` result where the asynchronous one returns
 * `{ done: true, value: 'EOD' }`.
 */
module Lazy {
  import opened Wrappers
  import opened Direction
  import opened Common

  /** A one-shot pull source (a JavaScript iterator) over a finite sequence of items. */
  class Source<T> {
    const items: seq<T>
    var pos: nat

    ghost predicate Valid()
      reads this
    {
      pos <= |items|
    }

    constructor (items: seq<T>)
      ensures this.items == items && pos == 0 && Valid()
    {
      this.items := items;
      pos := 0;
    }

    /** `next()`: the following item, or nothing once every item has been pulled. */
    method Next() returns (r: Option<T>)
      requires Valid()
      modifies this
      ensures Valid()
      ensures old(pos) < |items| ==> r == Some(items[old(pos)]) && pos == old(pos) + 1
      ensures old(pos) == |items| ==> r == None && pos == old(pos)
    {
      if pos < |items| {
        r := Some(items[pos]);
        pos := pos + 1;
      } else {
        r := None;
      }
    }
  }

  /** What the lazy array's `loadNext` reports. */
  datatype Pull<T> =
    | Got(value: T)  // a new item, now appended to the array
    | Ended          // the source has just run dry: the array becomes complete
    | Gone           // the array was already complete

  class LazyArray<T> {
    const data: Buffer<T>
    /** The source's iterator; the source drops it (`iter = undefined`) once `complete` holds. */
    const iter: Source<T>
    var complete: bool

    /** The array holds exactly the items pulled so far. */
    ghost predicate Valid()
      reads this, data, iter
    {
      iter.Valid()
      && data.items == iter.items[..iter.pos]
      && (complete ==> iter.pos == |iter.items|)
    }

    constructor (items: seq<T>)
      ensures Valid() && fresh(data) && fresh(iter)
      ensures iter.items == items && iter.pos == 0 && data.items == [] && !complete
    {
      data := new Buffer([]);
      iter := new Source(items);
      complete := false;
    }

    method LoadNext() returns (r: Pull<T>)
      requires Valid()
      modifies this, data, iter
      ensures Valid()
      ensures old(complete) ==> r == Gone && complete && iter.pos == old(iter.pos)
      ensures !old(complete) && old(iter.pos) < |iter.items| ==>
                r == Got(iter.items[old(iter.pos)]) && iter.pos == old(iter.pos) + 1 && !complete
      ensures !old(complete) && old(iter.pos) == |iter.items| ==>
                r == Ended && complete && iter.pos == old(iter.pos)
    {
      if complete {
        return Gone;
      }
      var res := iter.Next();
      if res.None? {
        complete := true;
        r := Ended;
      } else {
        data.items := data.items + [res.value];
        assert iter.items[..iter.pos] == iter.items[..iter.pos - 1] + [res.value];
        r := Got(res.value);
      }
    }

    /** `loadAll`: pull until the source runs dry. */
    method LoadAll()
      requires Valid()
      modifies this, data, iter
      ensures Valid() && complete && data.items == iter.items
    {
      var x := LoadNext();
      while x.Got?
        invariant Valid() && (!x.Got? ==> complete) && (x.Got? ==> !complete)
        decreases |iter.items| - iter.pos, if complete then 0 else 1
      {
        x := LoadNext();
      }
      assert iter.items[..iter.pos] == iter.items;
    }

    method Preload()
      requires Valid()
      modifies this, data, iter
      ensures Valid() && complete && data.items == iter.items
    {
      LoadAll();
    }

    /**
     * `build`: a new cursor at SOD. Over a complete array the source builds a
     * plain array cursor, modelled as a lazy cursor that starts out rebound.
     */
    method Build(sync: bool) returns (c: LazyArrayIterator<T>)
      requires Valid()
      ensures fresh(c) && fresh(c.baseArray) && c.loader == this && c.sync == sync
      ensures c.Valid() && c.baseArray.idx == -1
    {
      c := new LazyArrayIterator(this, sync);
    }
  }

  class LazyArrayIterator<T> {
    const baseArray: ArrayIterator<T>
    const loader: LazyArray<T>
    /** the synchronous variant, which passes the source's own `done` result through */
    const sync: bool
    /** `markComplete` has rebound `get` and `jump` to the base array's own */
    var rebound: bool

    /** The cursor walks the lazy array's own buffer, and is rebound only once that is complete. */
    ghost predicate Linked()
      reads this, baseArray, loader, loader.data, loader.iter
    {
      loader.Valid()
      && baseArray.data == loader.data
      && baseArray.Valid()
      && (rebound ==> loader.complete)
    }

    /** Between calls, a cursor that is not rebound sits before the end of what was pulled. */
    ghost predicate Valid()
      reads this, baseArray, loader, loader.data, loader.iter
    {
      Linked() && (!rebound ==> baseArray.idx < |loader.data.items|)
    }

    constructor (loader: LazyArray<T>, sync: bool)
      requires loader.Valid()
      ensures Valid() && fresh(baseArray) && this.loader == loader && this.sync == sync
      ensures baseArray.idx == -1
    {
      this.loader := loader;
      this.sync := sync;
      baseArray := new ArrayIterator(loader.data);
      rebound := loader.complete;
    }

    method MarkComplete()
      modifies this
      ensures rebound
    {
      rebound := true;
    }

    method LoadNext() returns (r: Step<T>)
      requires Linked() && !rebound && baseArray.idx == |loader.data.items|
      modifies this, loader, loader.data, loader.iter
      ensures Valid()
      ensures Moved(baseArray.idx, Settle(r)) == Incr(loader.iter.items, old(baseArray.idx) - 1)
      ensures r.Returned? ==> sync
      ensures loader.iter.pos == old(loader.iter.pos) + (if old(loader.iter.pos) < |loader.iter.items| then 1 else 0)
    {
      var res := loader.LoadNext();
      match res
      case Got(v) =>
        r := Yield(v);
      case Ended =>
        MarkComplete();
        r := if sync then Returned else Done(EOD);
      case Gone =>
        MarkComplete();
        r := Done(EOD);
    }

    method LoadAll()
      requires Valid()
      modifies this, loader, loader.data, loader.iter
      ensures rebound && loader.Valid() && loader.complete && loader.data.items == loader.iter.items
    {
      loader.LoadAll();
      MarkComplete();
    }

    function Size(): nat
      reads baseArray, baseArray.data
    {
      baseArray.Size()
    }

    /**
     * A jump lands where it would over the whole source; a jump to EOD first
     * pulls everything, a jump to SOD pulls nothing.
     */
    method Jump(term: Term)
      requires Valid()
      modifies this, baseArray, loader, loader.data, loader.iter
      ensures Valid()
      ensures baseArray.idx == JumpTo(|loader.iter.items|, term)
      ensures term == EOD ==> loader.complete && loader.data.items == loader.iter.items
      ensures term == SOD ==> loader.iter.pos == old(loader.iter.pos)
    {
      if !rebound && term == EOD {
        LoadAll();
      }
      baseArray.Jump(term);
      if term == EOD {
        assert loader.data.items == loader.iter.items;
      }
    }

    /**
     * A step is the step a cursor over the whole source would take. Only a
     * `next` past the last item pulled so far pulls, and then exactly one item
     * if one is left; `previous` never pulls.
     */
    method Get(d: Direction) returns (r: Step<T>)
      requires Valid()
      modifies this, baseArray, loader, loader.data, loader.iter
      ensures Valid()
      ensures Moved(baseArray.idx, Settle(r)) == GetAt(loader.iter.items, old(baseArray.idx), d)
      ensures r.Returned? ==> sync
      ensures loader.iter.pos == old(loader.iter.pos)
                + (if d == Next && !old(rebound) && old(baseArray.idx) == |old(loader.data.items)| - 1
                      && old(loader.iter.pos) < |loader.iter.items| then 1 else 0)
    {
      if rebound {
        assert loader.data.items == loader.iter.items;
        r := baseArray.Get(d);
        return;
      }
      var res := baseArray.Get(d);
      if res.Done? && d == Next {
        r := LoadNext();
      } else {
        r := res;
      }
    }
  }

  /** `k` successive `get(d)` calls on a lazy cursor. */
  method WalkLazy<T>(c: LazyArrayIterator<T>, d: Direction, k: nat) returns (steps: seq<Step<T>>)
    requires c.Valid() && !c.sync
    modifies c, c.baseArray, c.loader, c.loader.data, c.loader.iter
    ensures c.Valid()
    ensures (c.baseArray.idx, steps) == Walk(c.loader.iter.items, old(c.baseArray.idx), d, k)
  {
    steps := [];
    var i := 0;
    while i < k
      invariant 0 <= i <= k && c.Valid()
      invariant Walk(c.loader.iter.items, old(c.baseArray.idx), d, i) == (c.baseArray.idx, steps)
    {
      var r := c.Get(d);
      WalkExtend(c.loader.iter.items, old(c.baseArray.idx), d, i);
      steps := steps + [r];
      i := i + 1;
    }
  }

  /**
   * A fresh lazy array over `items`, walked forward from SOD and then back,
   * reports what an array over all of `items` reports.
   */
  method ExpectLazy<T>(items: seq<T>) returns (forward: seq<Step<T>>, backward: seq<Step<T>>)
    ensures forward == Yields(items) + [Done(EOD), Done(EOD)]
    ensures backward == Yields(Reverse(items)) + [Done(SOD), Done(SOD)]
  {
    var lazy := new LazyArray(items);
    var cursor := lazy.Build(false);
    ForwardFromStart(items);
    forward := WalkLazy(cursor, Next, |items| + 2);
    BackwardFromEnd(items);
    backward := WalkLazy(cursor, Previous, |items| + 2);
  }
}

/**
 * The bidirectional cursor over an array (src/common/preiterable/private/common.ts).
 *
 * A cursor's position runs from -1 (before the first item, reached by a jump
 * to SOD) to the length (after the last item, reached by a jump to EOD).
 * Stepping is specified once, as the pure functions `Incr`, `Decr` and
 * `GetAt`; every cursor class of the model is proved to step as `GetAt`
 * does over some sequence.
 */
module Common {
  import opened Wrappers
  import opened Direction

  /** One result of `get`: an item, or `done` carrying the term that was met. */
  datatype Step<T> =
    | Yield(value: T)
    | Done(term: Term)
      /** the source's own `done` result, passed through by the synchronous lazy array */
    | Returned

  /** The step a cursor reports, with the source's own `done` result read as EOD. */
  function Settle<T>(s: Step<T>): (r: Step<T>)
    ensures !r.Returned?
    ensures s.Returned? ==> r == Done(EOD)
    ensures !s.Returned? ==> r == s
  {
    if s.Returned? then Done(EOD) else s
  }

  /** A step together with the position it leaves the cursor at. */
  datatype Moved<T> = Moved(idx: int, step: Step<T>)

  /** A cursor as a value: the items and the position. */
  datatype Cursor<T> = Cursor(data: seq<T>, idx: int) {
    predicate Valid() { -1 <= idx <= |data| }
  }

  /** The position a jump to `term` leaves a cursor over `n` items at. */
  function JumpTo(n: nat, term: Term): (i: int)
    ensures term == SOD ==> i == -1
    ensures term == EOD ==> i == n
  {
    if term == SOD then -1 else n
  }

  /**
   * `getIncr`: from the last item the cursor moves past the end and reports
   * EOD; past the end it stays and reports EOD again; elsewhere it moves to
   * the next item and returns it.
   */
  function Incr<T>(data: seq<T>, idx: int): (m: Moved<T>)
    requires -1 <= idx <= |data|
    ensures m.step.Yield? <==> idx < |data| - 1
    ensures m.step.Yield? ==> m.idx == idx + 1 && m.step.value == data[m.idx]
    ensures !m.step.Yield? ==> m == Moved(|data|, Done(EOD))
  {
    if idx == |data| - 1 then Moved(idx + 1, Done(EOD))
    else if idx == |data| then Moved(idx, Done(EOD))
    else Moved(idx + 1, Yield(data[idx + 1]))
  }

  /** `getDecr`, the mirror image of `Incr`, meeting SOD before the first item. */
  function Decr<T>(data: seq<T>, idx: int): (m: Moved<T>)
    requires -1 <= idx <= |data|
    ensures m.step.Yield? <==> 0 < idx
    ensures m.step.Yield? ==> m.idx == idx - 1 && m.step.value == data[m.idx]
    ensures !m.step.Yield? ==> m == Moved(-1, Done(SOD))
  {
    if idx == 0 then Moved(idx - 1, Done(SOD))
    else if idx == -1 then Moved(idx, Done(SOD))
    else Moved(idx - 1, Yield(data[idx - 1]))
  }

  /** `get(direction)`: one step in `d`. */
  function GetAt<T>(data: seq<T>, idx: int, d: Direction): (m: Moved<T>)
    requires -1 <= idx <= |data|
    ensures -1 <= m.idx <= |data|
    ensures m.step.Yield? ==> 0 <= m.idx < |data| && m.step.value == data[m.idx]
    ensures m.step.Yield? ==> m.idx == (if d == Next then idx + 1 else idx - 1)
    ensures !m.step.Yield? ==> m == Moved(JumpTo(|data|, EndOf(d)), Done(EndOf(d)))
    ensures m.step.Yield? <==> (if d == Next then idx < |data| - 1 else 0 < idx)
  {
    if d == Next then Incr(data, idx) else Decr(data, idx)
  }

  /**
   * How many of `n` items a cursor at position `p` has behind it, counting the
   * item it rests on, when it walks in `d`: the measure the cursors whose
   * steps span several inner moves keep fixed while they search.
   */
  function Behind(d: Direction, p: int, n: nat): int
  {
    if d == Next then Min(p + 1, n) else Min(n - p, n)
  }

  /** `k` steps in direction `d`: the final position and the results, in order. */
  function Walk<T>(data: seq<T>, idx: int, d: Direction, k: nat): (r: (int, seq<Step<T>>))
    requires -1 <= idx <= |data|
    ensures -1 <= r.0 <= |data| && |r.1| == k
    decreases k
  {
    if k == 0 then (idx, [])
    else
      var m := GetAt(data, idx, d);
      var rest := Walk(data, m.idx, d, k - 1);
      (rest.0, [m.step] + rest.1)
  }

  /** Every item of `s`, in order, as yielded results. */
  function Yields<T>(s: seq<T>): (r: seq<Step<T>>)
    ensures |r| == |s|
  {
    if s == [] then [] else [Yield(s[0])] + Yields(s[1..])
  }

  function Reverse<T>(s: seq<T>): (r: seq<T>)
    ensures |r| == |s|
  {
    if s == [] then [] else [s[|s| - 1]] + Reverse(s[..|s| - 1])
  }

  /** Walking `j` steps and then `k` more is walking `j + k` steps. */
  lemma {:induction false} WalkSplit<T>(data: seq<T>, idx: int, d: Direction, j: nat, k: nat)
    requires -1 <= idx <= |data|
    ensures var first := Walk(data, idx, d, j);
            var second := Walk(data, first.0, d, k);
            Walk(data, idx, d, j + k) == (second.0, first.1 + second.1)
    decreases j
  {
    if j == 0 {
      assert Walk(data, idx, d, j).1 + Walk(data, idx, d, k).1 == Walk(data, idx, d, k).1;
    } else {
      var m := GetAt(data, idx, d);
      WalkSplit(data, m.idx, d, j - 1, k);
      var first := Walk(data, m.idx, d, j - 1);
      var second := Walk(data, first.0, d, k);
      assert Walk(data, idx, d, j) == (first.0, [m.step] + first.1);
      assert Walk(data, idx, d, j + k) == (second.0, [m.step] + Walk(data, m.idx, d, j - 1 + k).1);
      assert [m.step] + (first.1 + second.1) == ([m.step] + first.1) + second.1;
    }
  }

  /** Walking forward from `idx` to the last item yields every item after `idx`. */
  lemma {:induction false} WalkForward<T>(data: seq<T>, idx: int)
    requires -1 <= idx < |data|
    ensures Walk(data, idx, Next, |data| - 1 - idx) == (|data| - 1, Yields(data[idx + 1..]))
    decreases |data| - idx
  {
    if idx < |data| - 1 {
      WalkForward(data, idx + 1);
      assert data[idx + 1..][1..] == data[idx + 2..];
    } else {
      assert data[idx + 1..] == [];
    }
  }

  /** Walking backward from `idx` to the first item yields every item before `idx`, last first. */
  lemma {:induction false} WalkBackward<T>(data: seq<T>, idx: int)
    requires 0 <= idx <= |data|
    ensures Walk(data, idx, Previous, idx) == (0, Yields(Reverse(data[..idx])))
    decreases idx
  {
    if idx > 0 {
      WalkBackward(data, idx - 1);
      assert data[..idx][..idx - 1] == data[..idx - 1];
    }
  }

  /** One step of `Walk` is one `GetAt`. */
  lemma WalkOne<T>(data: seq<T>, idx: int, d: Direction)
    requires -1 <= idx <= |data|
    ensures Walk(data, idx, d, 1) == (GetAt(data, idx, d).idx, [GetAt(data, idx, d).step])
  {
    var m := GetAt(data, idx, d);
    assert Walk(data, m.idx, d, 0) == (m.idx, []);
    assert [m.step] + [] == [m.step];
  }

  /** One more step extends a walk by the step `GetAt` takes from where it stopped. */
  lemma WalkExtend<T>(data: seq<T>, idx: int, d: Direction, k: nat)
    requires -1 <= idx <= |data|
    ensures var w := Walk(data, idx, d, k);
            var m := GetAt(data, w.0, d);
            Walk(data, idx, d, k + 1) == (m.idx, w.1 + [m.step])
  {
    WalkSplit(data, idx, d, k, 1);
    WalkOne(data, Walk(data, idx, d, k).0, d);
  }

  /** Two steps from the last item forward (or the first backward) meet the edge twice. */
  lemma WalkPastEdge<T>(data: seq<T>, d: Direction)
    ensures var from := if d == Next then |data| - 1 else 0;
            -1 <= from <= |data| &&
            Walk(data, from, d, 2) == (JumpTo(|data|, EndOf(d)), [Done(EndOf(d)), Done(EndOf(d))])
  {
    var from := if d == Next then |data| - 1 else 0;
    var edge := JumpTo(|data|, EndOf(d));
    WalkOne(data, from, d);
    WalkOne(data, edge, d);
    WalkSplit(data, from, d, 1, 1);
    var edgeStep: Step<T> := Done(EndOf(d));
    assert [edgeStep] + [edgeStep] == [edgeStep, edgeStep];
  }

  /**
   * The behaviour every cursor of the source is tested for: walking forward
   * from SOD yields every item and then EOD twice.
   */
  lemma ForwardFromStart<T>(data: seq<T>)
    ensures Walk(data, JumpTo(|data|, SOD), Next, |data| + 2)
         == (|data|, Yields(data) + [Done(EOD), Done(EOD)])
  {
    var n := |data|;
    WalkForward(data, -1);
    assert data[0..] == data;
    var first := Walk(data, -1, Next, n);
    assert first == (n - 1, Yields(data));
    WalkPastEdge(data, Next);
    var second := Walk(data, n - 1, Next, 2);
    assert second == (n, [Done(EOD), Done(EOD)]);
    WalkSplit(data, -1, Next, n, 2);
  }

  /** Walking backward from EOD yields every item in reverse and then SOD twice. */
  lemma BackwardFromEnd<T>(data: seq<T>)
    ensures Walk(data, JumpTo(|data|, EOD), Previous, |data| + 2)
         == (-1, Yields(Reverse(data)) + [Done(SOD), Done(SOD)])
  {
    var n := |data|;
    WalkBackward(data, n);
    assert data[..n] == data;
    var first := Walk(data, n, Previous, n);
    assert first == (0, Yields(Reverse(data)));
    WalkPastEdge(data, Previous);
    var second := Walk(data, 0, Previous, 2);
    assert second == (-1, [Done(SOD), Done(SOD)]);
    WalkSplit(data, n, Previous, n, 2);
  }

  /**
   * After a jump to EOD, `next` reports EOD and `previous` returns the last
   * item; after a jump to SOD, `previous` reports SOD and `next` returns the
   * first item.
   */
  lemma JumpThenStep<T>(data: seq<T>)
    requires data != []
    ensures GetAt(data, JumpTo(|data|, EOD), Next) == Moved(|data|, Done(EOD))
    ensures GetAt(data, JumpTo(|data|, EOD), Previous) == Moved(|data| - 1, Yield(data[|data| - 1]))
    ensures GetAt(data, JumpTo(|data|, SOD), Previous) == Moved(-1, Done(SOD))
    ensures GetAt(data, JumpTo(|data|, SOD), Next) == Moved(0, Yield(data[0]))
  {
  }

  /** A fresh cursor over no items reports EOD twice forward and then SOD twice backward. */
  lemma EmptyCursor<T>(empty: seq<T>)
    requires empty == []
    ensures var fwd := Walk(empty, -1, Next, 2);
            var bwd := Walk(empty, fwd.0, Previous, 2);
            fwd.1 == [Done(EOD), Done(EOD)] && bwd.1 == [Done(SOD), Done(SOD)]
  {
  }

  /** A JavaScript array held by reference: the item store shared by a lazy array and its cursors. */
  class Buffer<T> {
    var items: seq<T>

    constructor (items: seq<T>)
      ensures this.items == items
    {
      this.items := items;
    }
  }

  /** `ArrayIterator`: a cursor object over a buffer it does not own. */
  class ArrayIterator<T> {
    const data: Buffer<T>
    var idx: int

    ghost predicate Valid()
      reads this, data
    {
      -1 <= idx <= |data.items|
    }

    /** A new cursor starts at SOD. */
    constructor (data: Buffer<T>)
      ensures this.data == data && Valid()
      ensures idx == JumpTo(|data.items|, SOD)
    {
      this.data := data;
      idx := 0;
      new;
      Jump(SOD);
    }

    method GetIncr() returns (r: Step<T>)
      requires Valid()
      modifies this
      ensures Valid()
      ensures Moved(idx, r) == Incr(data.items, old(idx))
    {
      if idx == |data.items| - 1 {
        // falls through into the past-the-end case
        idx := idx + 1;
        r := Done(EOD);
      } else if idx == |data.items| {
        r := Done(EOD);
      } else {
        idx := idx + 1;
        r := Yield(data.items[idx]);
      }
    }

    method GetDecr() returns (r: Step<T>)
      requires Valid()
      modifies this
      ensures Valid()
      ensures Moved(idx, r) == Decr(data.items, old(idx))
    {
      if idx == 0 {
        idx := idx - 1;
        r := Done(SOD);
      } else if idx == -1 {
        r := Done(SOD);
      } else {
        idx := idx - 1;
        r := Yield(data.items[idx]);
      }
    }

    function Size(): nat
      reads data
    {
      |data.items|
    }

    method Jump(term: Term)
      modifies this
      ensures idx == JumpTo(|data.items|, term) && Valid()
    {
      idx := if term == SOD then -1 else |data.items|;
    }

    method Get(d: Direction) returns (r: Step<T>)
      requires Valid()
      modifies this
      ensures Valid()
      ensures Moved(idx, r) == GetAt(data.items, old(idx), d)
    {
      if d == Next {
        r := GetIncr();
      } else {
        r := GetDecr();
      }
    }
  }

  /**
   * A cursor over `items`, walked `k` steps in `d` from a jump to `start`,
   * returns exactly what `Walk` predicts.
   */
  method WalkArray<T>(items: seq<T>, start: Term, d: Direction, k: nat) returns (steps: seq<Step<T>>)
    ensures steps == Walk(items, JumpTo(|items|, start), d, k).1
  {
    var buffer := new Buffer(items);
    var cursor := new ArrayIterator(buffer);
    cursor.Jump(start);
    steps := [];
    var i := 0;
    while i < k
      invariant 0 <= i <= k && cursor.Valid() && cursor.data == buffer && buffer.items == items
      invariant Walk(items, JumpTo(|items|, start), d, i) == (cursor.idx, steps)
    {
      var r := cursor.Get(d);
      WalkExtend(items, JumpTo(|items|, start), d, i);
      steps := steps + [r];
      i := i + 1;
    }
  }
}

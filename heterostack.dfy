/**
 * `HeteroStackIterator` (src/common/preiterable/async.ts): flattens a tree
 * whose levels may mix leaves and recursables, keeping a stack of the parent
 * cursors. Proved to step exactly as a cursor over the flattened leaves.
 */
module HeteroStack {
  import opened Wrappers
  import opened Direction
  import opened Common
  import opened Flatten
  import Sizeable

  /** A frame's size is the size of its cursor, the number of items it walks. */
  function FrameSize<T>(c: Cursor<Item<T>>): nat { |c.data| }

  class HeteroStackIterator<T(!new)> {
    /** the parent cursors, innermost on top */
    const stack: Sizeable.Stack<Cursor<Item<T>>>
    var cur: Cursor<Item<T>>
    const loader: Item<T> -> Cursor<Item<T>>
    /** the items of the recursable being flattened */
    ghost const root: seq<Item<T>>

    ghost predicate Valid()
      reads this, stack
    {
      Loads(loader) && AtRest(stack.data, cur, root)
    }

    /** The position among the flattened leaves. */
    ghost function Position(): int
      reads this, stack
      requires Valid()
    {
      Pos(stack.data, cur, root)
    }

    /** `build`: a fresh cursor over the recursable's items, at SOD, and an empty stack. */
    constructor (root: seq<Item<T>>, loader: Item<T> -> Cursor<Item<T>>)
      requires Loads(loader)
      ensures Valid() && fresh(stack) && this.root == root && this.loader == loader
      ensures stack.data == [] && Position() == -1
    {
      stack := new Sizeable.Stack([], FrameSize);
      cur := Cursor(root, -1);
      this.loader := loader;
      this.root := root;
    }

    function Size(): nat
      reads this, stack
    {
      |cur.data| + stack.Size()
    }

    /** A jump drops back to the outermost cursor and jumps it. */
    method Jump(term: Term)
      requires Valid()
      modifies this, stack
      ensures Valid() && stack.data == []
      ensures Position() == JumpTo(|Flat(root)|, term)
    {
      if stack.data != [] {
        ChainBottom(stack.data, cur, root);
      }
      var bottom := stack.Clear();
      if bottom.Some? {
        cur := bottom.value;
      }
      cur := Cursor(cur.data, JumpTo(|cur.data|, term));
    }

    /** What holds at every round of `get`'s loop, from leaves behind numbering `p`. */
    ghost predicate Searching(d: Direction, p: int)
      reads this, stack
    {
      Loads(loader) && Chain(stack.data, cur, root) && -1 <= p <= |Flat(root)|
      && Passed(d, stack.data, cur) == Behind(d, p, |Flat(root)|)
    }

    /** The current cursor is done: pop its parent back, or end at the edge of the root. */
    method Climb(d: Direction, ghost p: int) returns (ended: bool)
      requires Searching(d, p) && !GetAt(cur.data, cur.idx, d).step.Yield?
      modifies this, stack
      ensures !ended ==> Searching(d, p) && Rem(d, stack.data, cur) < old(Rem(d, stack.data, cur))
      ensures ended ==> Valid() && stack.data == []
                        && Moved(Position(), Done(EndOf(d))) == GetAt(Flat(root), p, d)
    {
      var m := GetAt(cur.data, cur.idx, d);
      if stack.data != [] {
        StepPop(d, stack.data, cur, root);
      } else {
        StepEnd(d, cur, root, p);
      }
      var top := stack.Pop();
      ended := top.None?;
      if ended {
        cur := Cursor(cur.data, m.idx);
      } else {
        cur := top.value;
      }
    }

    /** The current cursor yields a recursable: push the cursor and descend into a loaded one. */
    method Descend(d: Direction, ghost p: int)
      requires Searching(d, p)
      requires GetAt(cur.data, cur.idx, d).step.Yield? && GetAt(cur.data, cur.idx, d).step.value.Nested?
      modifies this, stack
      ensures Searching(d, p) && Rem(d, stack.data, cur) < old(Rem(d, stack.data, cur))
    {
      var m := GetAt(cur.data, cur.idx, d);
      StepPush(d, stack.data, cur, root);
      stack.Push(Cursor(cur.data, m.idx));
      var child := loader(m.step.value);
      cur := Cursor(child.data, JumpTo(|child.data|, StartOf(d)));
    }

    /** A step is the step a cursor over the flattened leaves would take. */
    method Get(d: Direction) returns (r: Step<T>)
      requires Valid()
      modifies this, stack
      ensures Valid()
      ensures Moved(Position(), r) == GetAt(Flat(root), old(Position()), d)
    {
      ghost var p := Position();
      RestPassed(d, stack.data, cur, root);
      var terms := TermsOf(d);
      while true
        invariant Searching(d, p)
        decreases Rem(d, stack.data, cur)
      {
        var m := GetAt(cur.data, cur.idx, d);
        if !m.step.Yield? {
          var ended := Climb(d, p);
          if ended {
            return Done(terms.done);
          }
          continue;
        }
        if m.step.value.Nested? {
          Descend(d, p);
          continue;
        }
        StepLeaf(d, stack.data, cur, root, p);
        cur := Cursor(cur.data, m.idx);
        return Yield(m.step.value.value);
      }
    }
  }

  /** `k` successive `get(d)` calls. */
  method WalkHetero<T(!new)>(it: HeteroStackIterator<T>, d: Direction, k: nat) returns (steps: seq<Step<T>>)
    requires it.Valid()
    modifies it, it.stack
    ensures it.Valid()
    ensures (it.Position(), steps) == Walk(Flat(it.root), old(it.Position()), d, k)
  {
    ghost var leaves := Flat(it.root);
    ghost var start := it.Position();
    steps := [];
    var i := 0;
    while i < k
      invariant 0 <= i <= k && it.Valid() && leaves == Flat(it.root) && -1 <= start <= |leaves|
      invariant Walk(leaves, start, d, i) == (it.Position(), steps)
    {
      var r := it.Get(d);
      WalkExtend(leaves, start, d, i);
      steps := steps + [r];
      i := i + 1;
    }
  }

  /** Flattening `root`, walked forward from SOD and then back, reports its leaves as an array would. */
  method ExpectFlat<T(!new)>(root: seq<Item<T>>) returns (forward: seq<Step<T>>, backward: seq<Step<T>>)
    ensures forward == Yields(Flat(root)) + [Done(EOD), Done(EOD)]
    ensures backward == Yields(Reverse(Flat(root))) + [Done(SOD), Done(SOD)]
  {
    BasicLoaderLoads<T>();
    var it := new HeteroStackIterator(root, BasicLoader);
    ForwardFromStart(Flat(root));
    forward := WalkHetero(it, Next, |Flat(root)| + 2);
    BackwardFromEnd(Flat(root));
    backward := WalkHetero(it, Previous, |Flat(root)| + 2);
  }
}

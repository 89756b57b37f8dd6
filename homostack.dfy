/**
 * `HomoStackIterator` (src/common/preiterable/async.ts): flattens a tree in
 * which every level holds only leaves or only recursables. Once a step has
 * reached a leaf, the cursor that produced it is kept as `curIterator`, and
 * later steps ask it directly until it runs out. Proved to step exactly as a
 * cursor over the flattened leaves.
 */
module HomoStack {
  import opened Wrappers
  import opened Direction
  import opened Common
  import opened Flatten
  import Sizeable
  import HeteroStack

  class HomoStackIterator<T(!new)> {
    const stack: Sizeable.Stack<Cursor<Item<T>>>
    var curRecursor: Cursor<Item<T>>
    /** `curIterator !== undefined`; when set it is `curRecursor` itself, a cursor over leaves */
    var hasIterator: bool
    const loader: Item<T> -> Cursor<Item<T>>
    ghost const root: seq<Item<T>>

    ghost predicate Valid()
      reads this, stack
    {
      Loads(loader) && Homogeneous(root) && AtRest(stack.data, curRecursor, root)
      && (hasIterator ==> OnLeaf(curRecursor))
    }

    ghost function Position(): int
      reads this, stack
      requires Valid()
    {
      Pos(stack.data, curRecursor, root)
    }

    constructor (root: seq<Item<T>>, loader: Item<T> -> Cursor<Item<T>>)
      requires Loads(loader) && Homogeneous(root)
      ensures Valid() && fresh(stack) && this.root == root && this.loader == loader
      ensures stack.data == [] && !hasIterator && Position() == -1
    {
      stack := new Sizeable.Stack([], HeteroStack.FrameSize);
      curRecursor := Cursor(root, -1);
      hasIterator := false;
      this.loader := loader;
      this.root := root;
    }

    function Size(): nat
      reads this, stack
    {
      stack.Size() + |curRecursor.data|
    }

    /** `load`: walk the stack until a leaf or the edge of the root, from leaves behind numbering `p`. */
    method Load(d: Direction, ghost p: int) returns (r: Step<T>)
      requires Loads(loader) && Homogeneous(root) && Chain(stack.data, curRecursor, root)
      requires -1 <= p <= |Flat(root)|
      requires Passed(d, stack.data, curRecursor) == Behind(d, p, |Flat(root)|)
      modifies this, stack
      ensures Valid()
      ensures Moved(Position(), r) == GetAt(Flat(root), p, d)
    {
      hasIterator := false;
      var terms := TermsOf(d);
      while true
        invariant Loads(loader) && Chain(stack.data, curRecursor, root) && !hasIterator
        invariant Passed(d, stack.data, curRecursor) == Behind(d, p, |Flat(root)|)
        decreases Rem(d, stack.data, curRecursor)
      {
        var m := GetAt(curRecursor.data, curRecursor.idx, d);
        if !m.step.Yield? {
          if stack.data != [] {
            StepPop(d, stack.data, curRecursor, root);
          } else {
            StepEnd(d, curRecursor, root, p);
          }
          var top := stack.Pop();
          if top.None? {
            curRecursor := Cursor(curRecursor.data, m.idx);
            return Done(m.step.term);
          }
          curRecursor := top.value;
          continue;
        }
        if m.step.value.Nested? {
          StepPush(d, stack.data, curRecursor, root);
          stack.Push(Cursor(curRecursor.data, m.idx));
          curRecursor := loader(m.step.value);
          curRecursor := Cursor(curRecursor.data, JumpTo(|curRecursor.data|, terms.start));
          continue;
        }
        StepLeaf(d, stack.data, curRecursor, root, p);
        curRecursor := Cursor(curRecursor.data, m.idx);
        hasIterator := true;
        return Yield(m.step.value.value);
      }
    }

    method Jump(term: Term)
      requires Valid()
      modifies this, stack
      ensures Valid() && stack.data == [] && !hasIterator
      ensures Position() == JumpTo(|Flat(root)|, term)
    {
      hasIterator := false;
      if stack.data != [] {
        ChainBottom(stack.data, curRecursor, root);
      }
      var bottom := stack.Clear();
      if bottom.Some? {
        curRecursor := bottom.value;
      }
      curRecursor := Cursor(curRecursor.data, JumpTo(|curRecursor.data|, term));
    }

    /** A step is the step a cursor over the flattened leaves would take. */
    method Get(d: Direction) returns (r: Step<T>)
      requires Valid()
      modifies this, stack
      ensures Valid()
      ensures Moved(Position(), r) == GetAt(Flat(root), old(Position()), d)
    {
      ghost var p := Position();
      RestPassed(d, stack.data, curRecursor, root);
      if !hasIterator {
        r := Load(d, p);
        return;
      }
      ChainHomogeneous(stack.data, curRecursor, root);
      LeafLevel(curRecursor.data, curRecursor.idx);
      var m := GetAt(curRecursor.data, curRecursor.idx, d);
      if m.step.Yield? {
        StepLeaf(d, stack.data, curRecursor, root, p);
        curRecursor := Cursor(curRecursor.data, m.idx);
        r := Yield(m.step.value.value);
      } else {
        StepDone(d, stack.data, curRecursor, root);
        curRecursor := Cursor(curRecursor.data, m.idx);
        r := Load(d, p);
      }
    }
  }

  /** `k` successive `get(d)` calls. */
  method WalkHomo<T(!new)>(it: HomoStackIterator<T>, d: Direction, k: nat) returns (steps: seq<Step<T>>)
    requires it.Valid()
    modifies it, it.stack
    ensures it.Valid()
    ensures (it.Position(), steps) == Walk(Flat(it.root), old(it.Position()), d, k)
  {
    ghost var leaves := Flat(it.root);
    ghost var start := it.Position();
    steps := [];
    var i := 0;
    while i < k
      invariant 0 <= i <= k && it.Valid() && leaves == Flat(it.root) && -1 <= start <= |leaves|
      invariant Walk(leaves, start, d, i) == (it.Position(), steps)
    {
      var r := it.Get(d);
      WalkExtend(leaves, start, d, i);
      steps := steps + [r];
      i := i + 1;
    }
  }
}

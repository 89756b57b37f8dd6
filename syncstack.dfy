/**
 * The synchronous `StackIterator` (src/common/preiterable/sync.ts). Unlike
 * the asynchronous stacks it keeps the outermost cursor (`baseRecursor`)
 * apart and the current cursor on top of the stack, and it never forgets
 * the cursor it last took a leaf from (`curIterator`): neither `jump` nor
 * `load` clears it. The members named `...AsWritten` model that; `Get` and
 * `Jump` model the evident intent, which the asynchronous `HomoStackIterator`
 * implements, and are proved to step as a cursor over the flattened leaves.
 */
module SyncStack {
  import opened Wrappers
  import opened Direction
  import opened Common
  import opened Flatten
  import Sizeable
  import HeteroStack

  /** What `curIterator` refers to. */
  datatype IterRef<T> =
    | NoIterator                           // undefined
    | Current                              // the cursor on top (or the base cursor when the stack is empty)
    | Stale(cursor: Cursor<Item<T>>)       // a cursor no longer on the stack, in the state it has now

  /** The current cursor: the top of the stack, or the base cursor. */
  function TopOf<T>(stack: seq<Cursor<Item<T>>>, base: Cursor<Item<T>>): Cursor<Item<T>>
  {
    if stack == [] then base else stack[0]
  }

  /** The parents of the current cursor, innermost first. */
  function ParentsOf<T>(stack: seq<Cursor<Item<T>>>, base: Cursor<Item<T>>): seq<Cursor<Item<T>>>
  {
    if stack == [] then [] else stack[1..] + [base]
  }

  class StackIterator<T(!new)> {
    var baseRecursor: Cursor<Item<T>>
    const stack: Sizeable.Stack<Cursor<Item<T>>>
    var curIterator: IterRef<T>
    const loader: Item<T> -> Cursor<Item<T>>
    ghost const root: seq<Item<T>>

    ghost predicate Valid()
      reads this, stack
    {
      Loads(loader) && Homogeneous(root)
      && AtRest(ParentsOf(stack.data, baseRecursor), TopOf(stack.data, baseRecursor), root)
      && (curIterator.Current? ==> AllLeaves(TopOf(stack.data, baseRecursor).data))
      && (curIterator.Stale? ==> curIterator.cursor.Valid() && AllLeaves(curIterator.cursor.data))
    }

    ghost function Position(): int
      reads this, stack
      requires Valid()
    {
      Pos(ParentsOf(stack.data, baseRecursor), TopOf(stack.data, baseRecursor), root)
    }

    constructor (root: seq<Item<T>>, loader: Item<T> -> Cursor<Item<T>>)
      requires Loads(loader) && Homogeneous(root)
      ensures Valid() && fresh(stack) && this.root == root && this.loader == loader
      ensures stack.data == [] && curIterator == NoIterator && Position() == -1
    {
      baseRecursor := Cursor(root, -1);
      stack := new Sizeable.Stack([], HeteroStack.FrameSize);
      curIterator := NoIterator;
      this.loader := loader;
      this.root := root;
    }

    /** `top` */
    function Top(): Cursor<Item<T>>
      reads this, stack
    {
      TopOf(stack.data, baseRecursor)
    }

    function Size(): nat
      reads this, stack
    {
      |baseRecursor.data| + stack.Size()
    }

    /** The current cursor object has moved to `c` (the stack holds a reference to it). */
    method StoreTop(c: Cursor<Item<T>>)
      modifies this, stack
      ensures TopOf(stack.data, baseRecursor) == c
      ensures ParentsOf(stack.data, baseRecursor) == old(ParentsOf(stack.data, baseRecursor))
      ensures |stack.data| == old(|stack.data|) && curIterator == old(curIterator)
      ensures old(stack.data) != [] ==> baseRecursor == old(baseRecursor)
    {
      if stack.data == [] {
        baseRecursor := c;
      } else {
        stack.data := [c] + stack.data[1..];
      }
    }

    /**
     * `stack.pop()`: the parent of the current cursor becomes current. A
     * reference to the popped cursor is left stale.
     */
    method PopFrame() returns (popped: bool)
      modifies this, stack
      ensures popped == (old(stack.data) != [])
      ensures !popped ==> stack.data == [] && baseRecursor == old(baseRecursor) && curIterator == old(curIterator)
      ensures popped ==> TopOf(stack.data, baseRecursor) == old(ParentsOf(stack.data, baseRecursor))[0]
                         && ParentsOf(stack.data, baseRecursor) == old(ParentsOf(stack.data, baseRecursor))[1..]
      ensures popped && old(curIterator).Current? ==> curIterator == Stale(old(stack.data[0]))
      ensures !(popped && old(curIterator).Current?) ==> curIterator == old(curIterator)
    {
      ghost var fs := ParentsOf(stack.data, baseRecursor);
      var top := stack.Pop();
      popped := top.Some?;
      if popped {
        if curIterator.Current? {
          curIterator := Stale(top.value);
        }
        assert fs[1..] == ParentsOf(stack.data, baseRecursor);
      }
    }

    /** `stack.push(c)`: `c` becomes current, above the cursor that was. */
    method PushFrame(c: Cursor<Item<T>>)
      modifies stack
      ensures TopOf(stack.data, baseRecursor) == c
      ensures ParentsOf(stack.data, baseRecursor) == [old(TopOf(stack.data, baseRecursor))] + old(ParentsOf(stack.data, baseRecursor))
    {
      stack.Push(c);
      assert ParentsOf(stack.data, baseRecursor) == [old(TopOf(stack.data, baseRecursor))] + old(ParentsOf(stack.data, baseRecursor));
    }

    /** What holds at every round of `load`, from leaves behind numbering `p`. */
    ghost predicate Loading(d: Direction, p: int)
      reads this, stack
    {
      Loads(loader) && Homogeneous(root)
      && Chain(ParentsOf(stack.data, baseRecursor), TopOf(stack.data, baseRecursor), root)
      && (curIterator.Current? ==> AllLeaves(TopOf(stack.data, baseRecursor).data))
      && (curIterator.Stale? ==> curIterator.cursor.Valid() && AllLeaves(curIterator.cursor.data))
      && -1 <= p <= |Flat(root)|
      && Passed(d, ParentsOf(stack.data, baseRecursor), TopOf(stack.data, baseRecursor)) == Behind(d, p, |Flat(root)|)
    }

    ghost function Remaining(d: Direction): nat
      reads this, stack
    {
      Rem(d, ParentsOf(stack.data, baseRecursor), TopOf(stack.data, baseRecursor))
    }

    /** The current cursor is done: pop it, or end at the edge of the root. */
    method Unwind(d: Direction, ghost p: int) returns (popped: bool)
      requires Loading(d, p) && !GetAt(Top().data, Top().idx, d).step.Yield?
      modifies this, stack
      ensures popped ==> Loading(d, p) && Remaining(d) < old(Remaining(d))
      ensures popped && old(curIterator).NoIterator? ==> curIterator.NoIterator?
      ensures !popped ==> Valid() && curIterator == old(curIterator)
                          && GetAt(Flat(root), p, d) == Moved(Position(), Done(EndOf(d)))
    {
      ghost var fs := ParentsOf(stack.data, baseRecursor);
      var cur := Top();
      var m := GetAt(cur.data, cur.idx, d);
      StepDone(d, fs, cur, root);
      if stack.data != [] {
        StepPop(d, fs, cur, root);
      } else {
        StepEnd(d, cur, root, p);
      }
      StoreTop(Cursor(cur.data, m.idx));
      popped := PopFrame();
    }

    /** The current cursor yields a nested node: load its cursor and push it. */
    method Descend(d: Direction, ghost p: int)
      requires Loading(d, p)
      requires GetAt(Top().data, Top().idx, d).step.Yield? && GetAt(Top().data, Top().idx, d).step.value.Nested?
      modifies this, stack
      ensures Loading(d, p) && Remaining(d) < old(Remaining(d)) && curIterator == old(curIterator)
    {
      ghost var fs := ParentsOf(stack.data, baseRecursor);
      var cur := Top();
      var m := GetAt(cur.data, cur.idx, d);
      StepPush(d, fs, cur, root);
      StoreTop(Cursor(cur.data, m.idx));
      var child := loader(m.step.value);
      PushFrame(Cursor(child.data, JumpTo(|child.data|, StartOf(d))));
    }

    /**
     * `load`: walk the stack until a leaf or the edge of the root, from leaves
     * behind numbering `p`. A referenced current cursor that is popped
     * becomes stale.
     */
    method Load(d: Direction, ghost p: int) returns (r: Step<T>)
      requires Loading(d, p)
      modifies this, stack
      ensures Valid()
      ensures Moved(Position(), r) == GetAt(Flat(root), p, d)
      ensures r.Yield? ==> curIterator.Current?
      ensures old(curIterator).NoIterator? ==> !curIterator.Stale?
    {
      var terms := TermsOf(d);
      while true
        invariant Loading(d, p)
        invariant old(curIterator).NoIterator? ==> curIterator.NoIterator?
        decreases Remaining(d)
      {
        var cur := Top();
        var m := GetAt(cur.data, cur.idx, d);
        if !m.step.Yield? {
          var popped := Unwind(d, p);
          if !popped {
            return Done(terms.done);
          }
          continue;
        }
        if m.step.value.Nested? {
          Descend(d, p);
          continue;
        }
        ghost var fs := ParentsOf(stack.data, baseRecursor);
        StepLeaf(d, fs, cur, root, p);
        StoreTop(Cursor(cur.data, m.idx));
        ChainHomogeneous(fs, Top(), root);
        LeafLevel(cur.data, m.idx);
        curIterator := Current;
        return Yield(m.step.value.value);
      }
    }

    /** The intended `jump`: forget the current cursor, clear the stack, jump the base cursor. */
    method Jump(term: Term)
      requires Valid()
      modifies this, stack
      ensures Valid() && stack.data == [] && curIterator == NoIterator
      ensures Position() == JumpTo(|Flat(root)|, term)
    {
      curIterator := NoIterator;
      JumpAsWritten(term);
    }

    /** `jump` as written: clears the stack and jumps the base cursor, but keeps `curIterator`. */
    method JumpAsWritten(term: Term)
      requires Valid()
      modifies this, stack
      ensures Valid() && stack.data == []
      ensures Position() == JumpTo(|Flat(root)|, term)
      ensures old(curIterator).Current? && old(stack.data) != [] ==> curIterator == Stale(old(stack.data[0]))
      ensures !(old(curIterator).Current? && old(stack.data) != []) ==> curIterator == old(curIterator)
    {
      if stack.data != [] {
        ChainBottom(ParentsOf(stack.data, baseRecursor), TopOf(stack.data, baseRecursor), root);
        if curIterator.Current? {
          curIterator := Stale(stack.data[0]);
        }
      }
      var _ := stack.Clear();
      baseRecursor := Cursor(baseRecursor.data, JumpTo(|baseRecursor.data|, term));
    }

    /** The intended `get`: ask the current cursor first, else `load` afresh. */
    method Get(d: Direction) returns (r: Step<T>)
      requires Valid()
      modifies this, stack
      ensures Valid() && !curIterator.Stale?
      ensures Moved(Position(), r) == GetAt(Flat(root), old(Position()), d)
    {
      ghost var p := Position();
      RestPassed(d, ParentsOf(stack.data, baseRecursor), Top(), root);
      if curIterator.Current? {
        var cur := Top();
        var m := GetAt(cur.data, cur.idx, d);
        if m.step.Yield? {
          StepLeaf(d, ParentsOf(stack.data, baseRecursor), cur, root, p);
          StoreTop(Cursor(cur.data, m.idx));
          return Yield(m.step.value.value);
        }
        StepDone(d, ParentsOf(stack.data, baseRecursor), cur, root);
        StoreTop(Cursor(cur.data, m.idx));
      }
      curIterator := NoIterator;
      r := Load(d, p);
    }

    /**
     * `get` as written: a stale `curIterator` is still asked first, and what it
     * yields is returned although the iterator has not moved.
     */
    method GetAsWritten(d: Direction) returns (r: Step<T>)
      requires Valid()
      modifies this, stack
      ensures Valid()
      ensures old(curIterator).Stale? && GetAt(old(curIterator).cursor.data, old(curIterator).cursor.idx, d).step.Yield? ==>
                r == Yield(GetAt(old(curIterator).cursor.data, old(curIterator).cursor.idx, d).step.value.value)
                && Position() == old(Position())
      ensures !(old(curIterator).Stale? && GetAt(old(curIterator).cursor.data, old(curIterator).cursor.idx, d).step.Yield?) ==>
                Moved(Position(), r) == GetAt(Flat(root), old(Position()), d)
      ensures !old(curIterator).Stale? && r.Yield? ==> curIterator.Current?
    {
      ghost var p := Position();
      RestPassed(d, ParentsOf(stack.data, baseRecursor), Top(), root);
      match curIterator {
        case NoIterator =>
        case Current =>
          var cur := Top();
          var m := GetAt(cur.data, cur.idx, d);
          if m.step.Yield? {
            StepLeaf(d, ParentsOf(stack.data, baseRecursor), cur, root, p);
            StoreTop(Cursor(cur.data, m.idx));
            return Yield(m.step.value.value);
          }
          StepDone(d, ParentsOf(stack.data, baseRecursor), cur, root);
          StoreTop(Cursor(cur.data, m.idx));
        case Stale(c) =>
          var m := GetAt(c.data, c.idx, d);
          curIterator := Stale(Cursor(c.data, m.idx));
          if m.step.Yield? {
            return Yield(m.step.value.value);
          }
      }
      r := Load(d, p);
    }
  }

  /** The tree `[[1, 2]]` of the example below: homogeneous, with leaves 1 and 2. */
  lemma PairTree()
    ensures Flat([Nested([Leaf(1), Leaf(2)])]) == [1, 2]
    ensures Homogeneous([Nested([Leaf(1), Leaf(2)])])
  {
    var inner := [Leaf(1), Leaf(2)];
    var tree := [Nested(inner)];
    assert Flat(inner) == [1, 2] by {
      assert inner[1..][1..] == [];
    }
    assert tree[1..] == [];
    assert Homogeneous(inner);
  }

  /** At rest on the first leaf of `[[1, 2]]`, the one frame on the stack is the inner cursor, on its first item. */
  lemma FirstLeafFrames(stack: seq<Cursor<Item<int>>>, base: Cursor<Item<int>>)
    requires AtRest(ParentsOf(stack, base), TopOf(stack, base), [Nested([Leaf(1), Leaf(2)])])
    requires Pos(ParentsOf(stack, base), TopOf(stack, base), [Nested([Leaf(1), Leaf(2)])]) == 0
    ensures |stack| == 1 && stack[0] == Cursor([Leaf(1), Leaf(2)], 0)
  {
    var inner := [Leaf(1), Leaf(2)];
    var tree := [Nested(inner)];
    PairTree();
    var fs := ParentsOf(stack, base);
    var top := TopOf(stack, base);
    assert stack != [];
    assert fs[|fs| - 1] == base;
    ChainBottom(fs, top, tree);
    assert |stack| == 1 by {
      if |stack| > 1 {
        var n := |fs|;
        ChainSuffix(fs, top, tree, n - 1);
        assert fs[n - 1..] == [base];
        assert fs[n - 2].data == inner;
        if n > 2 {
          ChainSuffix(fs, top, tree, n - 2);
        }
      }
    }
    assert top.data == inner;
    assert fs == [base];
    assert fs[1..] == [];
    assert base.idx == 0;
    assert Before(base) == [];
  }

  /**
   * Over `[[1, 2]]`: `next` returns 1; after `jump('SOD')` the next `next`
   * returns 2, where a cursor over the leaves `[1, 2]` returns 1 again.
   */
  method StaleAfterJump() returns (first: Step<int>, afterJump: Step<int>, expected: Step<int>)
    ensures first == Yield(1)
    ensures afterJump == Yield(2)
    ensures expected == Yield(1) && afterJump != expected
  {
    var tree := [Nested([Leaf(1), Leaf(2)])];
    PairTree();
    BasicLoaderLoads<int>();
    var it := new StackIterator(tree, BasicLoader);
    first := it.GetAsWritten(Next);
    FirstLeafFrames(it.stack.data, it.baseRecursor);
    it.JumpAsWritten(SOD);
    afterJump := it.GetAsWritten(Next);
    expected := GetAt(Flat(tree), JumpTo(|Flat(tree)|, SOD), Next).step;
  }
}

/**
 * The theory behind the recursive stacks (`HeteroStack`, `HomoStack` in
 * src/common/preiterable/async.ts and `Stack` in
 * src/common/preiterable/sync.ts): a tree of recursables, its flattening,
 * and the chain of parent cursors a stack iterator keeps. Each inner move
 * of a stack iterator (yield a leaf, descend into a node, climb out of an
 * exhausted node, stop at the edge) is proved here to keep the iterator in
 * step with a plain cursor over the flattened leaves.
 */
module Flatten {
  import opened Wrappers
  import opened Direction
  import opened Common

  /** A leaf item, or a recursable whose children are walked in its place. */
  datatype Item<T> = Leaf(value: T) | Nested(children: seq<Item<T>>)

  function FlatItem<T>(t: Item<T>): seq<T>
    decreases t
  {
    match t
    case Leaf(v) => [v]
    case Nested(ch) => Flat(ch)
  }

  /** The leaves of `s`, depth first, in order (what `flatten` promises to walk). */
  function Flat<T>(s: seq<Item<T>>): seq<T>
    decreases s
  {
    if s == [] then [] else FlatItem(s[0]) + Flat(s[1..])
  }

  lemma {:induction false} FlatConcat<T>(a: seq<Item<T>>, b: seq<Item<T>>)
    ensures Flat(a + b) == Flat(a) + Flat(b)
    decreases |a|
  {
    if a == [] {
      assert a + b == b;
    } else {
      assert (a + b)[0] == a[0];
      assert (a + b)[1..] == a[1..] + b;
      FlatConcat(a[1..], b);
    }
  }

  lemma {:induction false} FlatSnoc<T>(s: seq<Item<T>>, i: int)
    requires 0 <= i < |s|
    ensures Flat(s[..i + 1]) == Flat(s[..i]) + FlatItem(s[i])
    ensures Flat(s[i..]) == FlatItem(s[i]) + Flat(s[i + 1..])
  {
    assert s[..i + 1] == s[..i] + [s[i]];
    FlatConcat(s[..i], [s[i]]);
    assert [s[i]][1..] == [];
    assert s[i..][1..] == s[i + 1..];
  }

  lemma {:induction false} FlatAround<T>(s: seq<Item<T>>, i: int)
    requires 0 <= i < |s|
    ensures Flat(s) == Flat(s[..i]) + FlatItem(s[i]) + Flat(s[i + 1..])
  {
    assert s == s[..i] + s[i..];
    FlatConcat(s[..i], s[i..]);
    FlatSnoc(s, i);
  }

  /** A size that every descent and every climb reduces: a node outweighs its children. */
  function ItemSize<T>(t: Item<T>): nat
    decreases t
  {
    match t
    case Leaf(_) => 1
    case Nested(ch) => SeqSize(ch) + 2
  }

  function SeqSize<T>(s: seq<Item<T>>): nat
    decreases s
  {
    if s == [] then 0 else ItemSize(s[0]) + SeqSize(s[1..])
  }

  lemma {:induction false} SizeConcat<T>(a: seq<Item<T>>, b: seq<Item<T>>)
    ensures SeqSize(a + b) == SeqSize(a) + SeqSize(b)
    decreases |a|
  {
    if a == [] {
      assert a + b == b;
    } else {
      assert (a + b)[0] == a[0];
      assert (a + b)[1..] == a[1..] + b;
      SizeConcat(a[1..], b);
    }
  }

  lemma {:induction false} SizeSnoc<T>(s: seq<Item<T>>, i: int)
    requires 0 <= i < |s|
    ensures SeqSize(s[..i + 1]) == SeqSize(s[..i]) + ItemSize(s[i])
    ensures SeqSize(s[i..]) == ItemSize(s[i]) + SeqSize(s[i + 1..])
  {
    assert s[..i + 1] == s[..i] + [s[i]];
    SizeConcat(s[..i], [s[i]]);
    assert [s[i]][1..] == [];
    assert s[i..][1..] == s[i + 1..];
  }

  function Clamp(i: int, n: nat): (r: nat)
    ensures r <= n
  {
    if i < 0 then 0 else if i > n then n else i
  }

  /** The items strictly before, strictly after, up to and including, and from a cursor's position. */
  function Before<T>(c: Cursor<T>): seq<T> { c.data[..Clamp(c.idx, |c.data|)] }
  function After<T>(c: Cursor<T>): seq<T> { c.data[Clamp(c.idx + 1, |c.data|)..] }
  function UpTo<T>(c: Cursor<T>): seq<T> { c.data[..Clamp(c.idx + 1, |c.data|)] }
  function From<T>(c: Cursor<T>): seq<T> { c.data[Clamp(c.idx, |c.data|)..] }

  /**
   * The parent cursors `fs` (innermost first) of the current cursor `cur`:
   * each parent rests on the node whose children the cursor above it walks,
   * and the outermost walks `root`.
   */
  ghost predicate Chain<T>(fs: seq<Cursor<Item<T>>>, cur: Cursor<Item<T>>, root: seq<Item<T>>)
    decreases |fs|
  {
    cur.Valid()
    && if fs == [] then cur.data == root
       else 0 <= fs[0].idx < |fs[0].data| && fs[0].data[fs[0].idx] == Nested(cur.data)
            && Chain(fs[1..], fs[0], root)
  }

  /** The leaves to the left of the parents' positions. */
  function Lft<T>(fs: seq<Cursor<Item<T>>>): seq<T>
    decreases |fs|
  {
    if fs == [] then [] else Lft(fs[1..]) + Flat(Before(fs[0]))
  }

  /** The leaves to the right of the parents' positions. */
  function Rgt<T>(fs: seq<Cursor<Item<T>>>): seq<T>
    decreases |fs|
  {
    if fs == [] then [] else Flat(After(fs[0])) + Rgt(fs[1..])
  }

  /** The leaves of the tree are those left of the chain, under the current cursor, and right of it. */
  lemma {:induction false} ChainSplit<T>(fs: seq<Cursor<Item<T>>>, cur: Cursor<Item<T>>, root: seq<Item<T>>)
    requires Chain(fs, cur, root)
    ensures Flat(root) == Lft(fs) + Flat(cur.data) + Rgt(fs)
    decreases |fs|
  {
    if fs != [] {
      ChainSplit(fs[1..], fs[0], root);
      FlatAround(fs[0].data, fs[0].idx);
    }
  }

  /** The outermost cursor of a chain walks the root. */
  lemma {:induction false} ChainBottom<T>(fs: seq<Cursor<Item<T>>>, cur: Cursor<Item<T>>, root: seq<Item<T>>)
    requires Chain(fs, cur, root) && fs != []
    ensures fs[|fs| - 1].data == root && fs[|fs| - 1].Valid()
    decreases |fs|
  {
    if |fs| > 1 {
      ChainBottom(fs[1..], fs[0], root);
      assert fs[1..][|fs[1..]| - 1] == fs[|fs| - 1];
    }
  }

  /** Every suffix of a chain is a chain, over the parent just below it. */
  lemma {:induction false} ChainSuffix<T>(fs: seq<Cursor<Item<T>>>, cur: Cursor<Item<T>>, root: seq<Item<T>>, i: nat)
    requires Chain(fs, cur, root) && 0 < i <= |fs|
    ensures Chain(fs[i..], fs[i - 1], root)
    decreases i
  {
    if i > 1 {
      ChainSuffix(fs[1..], fs[0], root, i - 1);
      assert fs[1..][i - 1..] == fs[i..];
    }
  }

  /** Moving the current cursor within its items keeps the chain. */
  lemma {:induction false} ChainMove<T>(fs: seq<Cursor<Item<T>>>, cur: Cursor<Item<T>>, next: Cursor<Item<T>>, root: seq<Item<T>>)
    requires Chain(fs, cur, root) && next.data == cur.data && next.Valid()
    ensures Chain(fs, next, root)
  {
  }

  predicate OnLeaf<T>(c: Cursor<Item<T>>)
  {
    0 <= c.idx < |c.data| && c.data[c.idx].Leaf?
  }

  /**
   * Where a stack iterator rests between calls: on a leaf, or with an empty
   * stack at one edge of the root.
   */
  ghost predicate AtRest<T>(fs: seq<Cursor<Item<T>>>, cur: Cursor<Item<T>>, root: seq<Item<T>>)
  {
    Chain(fs, cur, root)
    && (OnLeaf(cur) || (fs == [] && (cur.idx == -1 || cur.idx == |cur.data|)))
  }

  /** The position, among the flattened leaves, of a resting stack iterator. */
  ghost function Pos<T>(fs: seq<Cursor<Item<T>>>, cur: Cursor<Item<T>>, root: seq<Item<T>>): (p: int)
    requires AtRest(fs, cur, root)
    ensures -1 <= p <= |Flat(root)|
  {
    if OnLeaf(cur) then LeafIndex(fs, cur, root); |Lft(fs)| + |Flat(cur.data[..cur.idx])|
    else if cur.idx == -1 then -1
    else |Flat(root)|
  }

  /** The leaves behind the iterator, counting any leaf under the current cursor's position. */
  ghost function Passed<T>(d: Direction, fs: seq<Cursor<Item<T>>>, cur: Cursor<Item<T>>): int
  {
    if d == Next then |Lft(fs)| + |Flat(UpTo(cur))| else |Rgt(fs)| + |Flat(From(cur))|
  }

  /** What is left to visit from one cursor in direction `d`, and from a whole chain. */
  function Rem1<T>(d: Direction, c: Cursor<Item<T>>): nat
  {
    (if d == Next then SeqSize(After(c)) else SeqSize(Before(c))) + 1
  }

  function RemFrames<T>(d: Direction, fs: seq<Cursor<Item<T>>>): nat
    decreases |fs|
  {
    if fs == [] then 0 else Rem1(d, fs[0]) + RemFrames(d, fs[1..])
  }

  function Rem<T>(d: Direction, fs: seq<Cursor<Item<T>>>, cur: Cursor<Item<T>>): nat
  {
    RemFrames(d, fs) + Rem1(d, cur)
  }

  /** The leaf under a cursor of the chain, and its place among the flattened leaves. */
  lemma {:induction false} LeafIndex<T>(fs: seq<Cursor<Item<T>>>, cur: Cursor<Item<T>>, root: seq<Item<T>>)
    requires Chain(fs, cur, root) && OnLeaf(cur)
    ensures |Lft(fs)| + |Flat(cur.data[..cur.idx])| < |Flat(root)|
    ensures Flat(root)[|Lft(fs)| + |Flat(cur.data[..cur.idx])|] == cur.data[cur.idx].value
    ensures |Lft(fs)| + |Flat(cur.data[..cur.idx + 1])| == |Lft(fs)| + |Flat(cur.data[..cur.idx])| + 1
    ensures |Rgt(fs)| + |Flat(cur.data[cur.idx..])|
            == |Flat(root)| - |Lft(fs)| - |Flat(cur.data[..cur.idx])|
  {
    var i := cur.idx;
    var v := cur.data[i].value;
    ChainSplit(fs, cur, root);
    FlatAround(cur.data, i);
    FlatSnoc(cur.data, i);
    var l, a, b, r := Lft(fs), Flat(cur.data[..i]), Flat(cur.data[i + 1..]), Rgt(fs);
    assert FlatItem(cur.data[i]) == [v];
    assert Flat(root) == l + (a + [v] + b) + r;
    assert (l + (a + [v] + b) + r)[|l| + |a|] == (a + [v] + b)[|a|] == v;
  }

  /** At rest, the leaves behind the iterator are exactly those behind its position. */
  lemma {:induction false} RestPassed<T>(d: Direction, fs: seq<Cursor<Item<T>>>, cur: Cursor<Item<T>>, root: seq<Item<T>>)
    requires AtRest(fs, cur, root)
    ensures -1 <= Pos(fs, cur, root) <= |Flat(root)|
    ensures Passed(d, fs, cur) == Behind(d, Pos(fs, cur, root), |Flat(root)|)
  {
    ChainSplit(fs, cur, root);
    var n := |cur.data|;
    assert cur.data[..n] == cur.data && cur.data[0..] == cur.data;
    if OnLeaf(cur) {
      LeafIndex(fs, cur, root);
    }
  }

  /** A leaf reached by one inner step is the leaf a cursor over the flattened leaves steps to. */
  lemma {:induction false} StepLeaf<T>(d: Direction, fs: seq<Cursor<Item<T>>>, cur: Cursor<Item<T>>, root: seq<Item<T>>, p: int)
    requires Chain(fs, cur, root) && -1 <= p <= |Flat(root)|
    requires Passed(d, fs, cur) == Behind(d, p, |Flat(root)|)
    requires GetAt(cur.data, cur.idx, d).step.Yield? && GetAt(cur.data, cur.idx, d).step.value.Leaf?
    ensures var m := GetAt(cur.data, cur.idx, d);
            var next := Cursor(cur.data, m.idx);
            AtRest(fs, next, root)
            && GetAt(Flat(root), p, d) == Moved(Pos(fs, next, root), Yield(m.step.value.value))
  {
    var m := GetAt(cur.data, cur.idx, d);
    var next := Cursor(cur.data, m.idx);
    ChainMove(fs, cur, next, root);
    var j := m.idx;
    var q := |Lft(fs)| + |Flat(cur.data[..j])|;
    LeafIndex(fs, next, root);
    assert AtRest(fs, next, root);
    assert Pos(fs, next, root) == q;
    if d == Next {
      StepLeafNext(fs, cur, root, p, j);
    } else {
      StepLeafPrevious(fs, cur, root, p, j);
    }
    var g := GetAt(Flat(root), p, d);
    assert g.step.Yield? && g.idx == q;
    assert g.step.value == Flat(root)[q] == m.step.value.value;
  }

  lemma {:induction false} StepLeafNext<T>(fs: seq<Cursor<Item<T>>>, cur: Cursor<Item<T>>, root: seq<Item<T>>, p: int, j: int)
    requires Chain(fs, cur, root) && -1 <= p <= |Flat(root)|
    requires Passed(Next, fs, cur) == Behind(Next, p, |Flat(root)|)
    requires 0 <= j < |cur.data| && j == cur.idx + 1 && cur.data[j].Leaf?
    ensures p + 1 == |Lft(fs)| + |Flat(cur.data[..j])| < |Flat(root)|
  {
    assert UpTo(cur) == cur.data[..j];
    LeafIndex(fs, Cursor(cur.data, j), root);
  }

  lemma {:induction false} StepLeafPrevious<T>(fs: seq<Cursor<Item<T>>>, cur: Cursor<Item<T>>, root: seq<Item<T>>, p: int, j: int)
    requires Chain(fs, cur, root) && -1 <= p <= |Flat(root)|
    requires Passed(Previous, fs, cur) == Behind(Previous, p, |Flat(root)|)
    requires 0 <= j < |cur.data| && j == cur.idx - 1 && cur.data[j].Leaf?
    ensures p - 1 == |Lft(fs)| + |Flat(cur.data[..j])|
  {
    assert From(cur) == cur.data[j + 1..];
    FlatSnoc(cur.data, j);
    LeafIndex(fs, Cursor(cur.data, j), root);
  }

  /** Descending into a node reached by one inner step keeps the leaves behind and shrinks what is left. */
  lemma {:induction false} StepPush<T>(d: Direction, fs: seq<Cursor<Item<T>>>, cur: Cursor<Item<T>>, root: seq<Item<T>>)
    requires Chain(fs, cur, root)
    requires GetAt(cur.data, cur.idx, d).step.Yield? && GetAt(cur.data, cur.idx, d).step.value.Nested?
    ensures var m := GetAt(cur.data, cur.idx, d);
            var next := Cursor(cur.data, m.idx);
            var ch := m.step.value.children;
            var child := Cursor(ch, JumpTo(|ch|, StartOf(d)));
            Chain([next] + fs, child, root)
            && Passed(d, [next] + fs, child) == Passed(d, fs, cur)
            && Rem(d, [next] + fs, child) < Rem(d, fs, cur)
  {
    var m := GetAt(cur.data, cur.idx, d);
    var next := Cursor(cur.data, m.idx);
    var ch := m.step.value.children;
    var child := Cursor(ch, JumpTo(|ch|, StartOf(d)));
    var j := m.idx;
    ChainMove(fs, cur, next, root);
    assert ([next] + fs)[1..] == fs;
    assert ch[0..] == ch && ch[..|ch|] == ch;
    SizeSnoc(cur.data, j);
    if d == Next {
      assert UpTo(cur) == cur.data[..j] == Before(next);
      assert After(cur) == cur.data[j..];
    } else {
      assert From(cur) == cur.data[j + 1..] == After(next);
      assert Before(cur) == cur.data[..j + 1];
    }
  }

  /** An inner step that meets the edge of the current cursor's items keeps the leaves behind. */
  lemma {:induction false} StepDone<T>(d: Direction, fs: seq<Cursor<Item<T>>>, cur: Cursor<Item<T>>, root: seq<Item<T>>)
    requires Chain(fs, cur, root)
    requires !GetAt(cur.data, cur.idx, d).step.Yield?
    ensures var next := Cursor(cur.data, GetAt(cur.data, cur.idx, d).idx);
            Chain(fs, next, root) && Passed(d, fs, next) == Passed(d, fs, cur)
  {
    var next := Cursor(cur.data, GetAt(cur.data, cur.idx, d).idx);
    ChainMove(fs, cur, next, root);
  }

  /** Climbing out of an exhausted node resumes its parent with the same leaves behind. */
  lemma {:induction false} StepPop<T>(d: Direction, fs: seq<Cursor<Item<T>>>, cur: Cursor<Item<T>>, root: seq<Item<T>>)
    requires Chain(fs, cur, root) && fs != []
    requires !GetAt(cur.data, cur.idx, d).step.Yield?
    ensures Chain(fs[1..], fs[0], root)
    ensures Passed(d, fs[1..], fs[0]) == Passed(d, fs, cur)
    ensures Rem(d, fs[1..], fs[0]) < Rem(d, fs, cur)
  {
    var f := fs[0];
    var n := |cur.data|;
    assert cur.data[..n] == cur.data && cur.data[0..] == cur.data;
    FlatSnoc(f.data, f.idx);
    if d == Next {
      assert UpTo(f) == f.data[..f.idx + 1];
    } else {
      assert From(f) == f.data[f.idx..];
    }
  }

  /** Meeting the edge of the root is meeting the edge of the flattened leaves. */
  lemma {:induction false} StepEnd<T>(d: Direction, cur: Cursor<Item<T>>, root: seq<Item<T>>, p: int)
    requires Chain([], cur, root) && -1 <= p <= |Flat(root)|
    requires Passed(d, [], cur) == Behind(d, p, |Flat(root)|)
    requires !GetAt(cur.data, cur.idx, d).step.Yield?
    ensures var m := GetAt(cur.data, cur.idx, d);
            var next := Cursor(cur.data, m.idx);
            AtRest([], next, root) && m.step == Done(EndOf(d))
            && GetAt(Flat(root), p, d) == Moved(Pos([], next, root), Done(EndOf(d)))
  {
    var n := |cur.data|;
    assert cur.data[..n] == cur.data && cur.data[0..] == cur.data;
  }

  /**
   * A stack loader: for a recursable, a cursor over its children (`basicLoader`
   * builds a fresh one, `cachedLoader` hands out a cached one; the stack
   * jumps it to the direction's start term either way).
   */
  ghost predicate Loads<T(!new)>(loader: Item<T> -> Cursor<Item<T>>)
  {
    forall ch: seq<Item<T>> {:trigger loader(Nested(ch))} :: loader(Nested(ch)).data == ch
  }

  /** `basicLoader`: a fresh cursor over the recursable's children. */
  function BasicLoader<T>(t: Item<T>): (c: Cursor<Item<T>>)
    ensures t.Nested? ==> c == Cursor(t.children, -1)
  {
    match t
    case Nested(ch) => Cursor(ch, -1)
    case Leaf(_) => Cursor([], -1)
  }

  lemma BasicLoaderLoads<T(!new)>()
    ensures Loads(BasicLoader<T>)
  {
  }

  /** `Homogeneous`: at every level the items are all leaves or all recursables. */
  ghost predicate Homogeneous<T>(s: seq<Item<T>>)
    decreases s
  {
    (forall i | 0 <= i < |s| :: s[i].Leaf?)
    || (forall i | 0 <= i < |s| :: s[i].Nested? && Homogeneous(s[i].children))
  }

  predicate AllLeaves<T>(s: seq<Item<T>>)
  {
    forall i | 0 <= i < |s| :: s[i].Leaf?
  }

  /** In a homogeneous tree every cursor of a chain walks a homogeneous level. */
  lemma {:induction false} ChainHomogeneous<T>(fs: seq<Cursor<Item<T>>>, cur: Cursor<Item<T>>, root: seq<Item<T>>)
    requires Chain(fs, cur, root) && Homogeneous(root)
    ensures Homogeneous(cur.data)
    decreases |fs|
  {
    if fs != [] {
      ChainHomogeneous(fs[1..], fs[0], root);
      assert fs[0].data[fs[0].idx].Nested?;
    }
  }

  /** A homogeneous level with one leaf holds only leaves. */
  lemma LeafLevel<T>(s: seq<Item<T>>, i: int)
    requires Homogeneous(s) && 0 <= i < |s| && s[i].Leaf?
    ensures AllLeaves(s)
  {
  }
}

# medias-res: preiterable cursors, sizeable caches and codecs in Dafny

This project models the core of medias-res, a media browser. At its centre is
the *preiterable* library.

**Cursors.** A bidirectional cursor walks a sequence. It steps `next` or
`previous`, and it can jump to the start of data (`SOD`) or the end of data
(`EOD`). The model covers:

- the fixed `ArrayIterator`;
- the lazily filled `LazyArray` and its cursor;
- filtered and transformed cursors;
- the three flattening stacks, which walk a tree of nested sequences as one
  flat sequence of leaves: the heterogeneous and homogeneous asynchronous
  stacks, and the synchronous `Stack`;
- homogeneous collation, which turns a source of mixed leaves and
  recursables into a source of recursables only.

**Sizeable structures.** Also modelled are the support structures of
`sizeable.ts`: the size-bounded `LRUCache`, its identity-keyed memoiser
`SymbolicLRUCache`, and the array-backed `Stack`.

**Configuration and filtering.** Around the cursors sit small pieces of
configuration logic, also modelled:

- the `mergeable` merge combinators;
- the command-line decoder with its `Input` token cursor and flag decoders;
- the from-string codecs, including the `/pattern/flags` form of a regular
  expression;
- conjunction of filters and the classify and load filters;
- the MIME type lookup by file extension.

**How the model is proved.** Every cursor is a Dafny class whose position
lives in its fields. Each class's `Get` and `Jump` are proved to move exactly
as a cursor over an ordinary sequence would. That reference behaviour is
stepping (`Common.GetAt`) and jumping (`Common.JumpTo`), taken over one of:

- the items themselves, for the array cursors;
- every item the pull source will ever yield, for the lazy cursors;
- the items the filter keeps (`Wrapped.Keep`);
- the transformed items (`Wrapped.Map`);
- the leaves of the tree (`Flatten.Flat`), for the stacks.

The reference behaviour's own laws are proved separately. The forward walk
from `SOD` yields every item and then `EOD` twice. The backward walk from
`EOD` yields them reversed and then `SOD` twice. These are the traces the
repository's tests check.

**Pull sources and loaders.** A pull source is a sequence with a read
position. A recursable is a tree datatype (`Flatten.Item`: `Leaf` or
`Nested`). A loader is a function from a node to a fresh cursor over its
children. The predicate `Flatten.Loads` states that a loader does this, and
`Flatten.BasicLoader` satisfies it. The asynchronous variants are modelled
sequentially: each `await` is an ordinary call.

**Loaded cursors always start at the start term.** Every stack jumps each
cursor its loader hands back to the direction's start term on every load,
whether the loader built it afresh or returned one it had cached
(`src/common/preiterable/async.ts:281-283`,
`src/common/preiterable/sync.ts:193-194`).

## Model

| member | source | states |
|---|---|---|
| Direction.TermsOf | src/common/preiterable/private/direction.ts:4-8 | `next` has start `SOD` and done `EOD`, `previous` the reverse; start and done always differ |
| Direction.StartOf | src/common/preiterable/private/direction.ts:10 | where a walk begins: never the edge it runs into, and `SOD` exactly for `next` |
| Direction.EndOf | src/common/preiterable/private/direction.ts:11 | what an exhausted walk returns: the edge it runs into, and `EOD` exactly for `next` |
| Direction.StartIsOppositeEnd | src/common/preiterable/private/direction.ts:10-11 | `startOf` and `endOf` are the projections of `termsOf`: the start of one direction is the end of the other, with the four concrete values |
| Common.Settle | src/common/preiterable/sync.ts:129-135 | the source's own done result, which the synchronous lazy array passes on, reads as `EOD`; every other step is unchanged |
| Common.JumpTo | src/common/preiterable/private/common.ts:57 | `jump('SOD')` puts the index at -1 and `jump('EOD')` at the length |
| Common.Incr | src/common/preiterable/private/common.ts:34-43 | a forward step yields `data[idx+1]` and moves there exactly when idx < length-1; otherwise it parks the index at the length and reports `EOD` |
| Common.Decr | src/common/preiterable/private/common.ts:45-54 | the mirror: yields `data[idx-1]` exactly when idx > 0, otherwise parks at -1 and reports `SOD` |
| Common.GetAt | src/common/preiterable/private/common.ts:58 | a step keeps -1 ≤ idx ≤ length; a yield is the element at the new index, one further in the direction; an exhausted step reports that direction's done term at that edge |
| Common.Walk | src/common/preiterable/async.test.ts:20-40 | k successive steps return k results and leave the index in bounds |
| Common.WalkSplit | src/common/preiterable/async.test.ts:20-40 | walking j steps and then k steps is walking j+k steps |
| Common.WalkForward | src/common/preiterable/private/common.ts:34-43 | forward from index i, the walk yields `data[i+1..]` in order and stops on the last element |
| Common.WalkBackward | src/common/preiterable/private/common.ts:45-54 | backward from index i, the walk yields `data[..i]` reversed and stops on the first element |
| Common.WalkOne | src/common/preiterable/private/common.ts:58 | a walk of one step is one `get` |
| Common.WalkExtend | src/common/preiterable/private/common.ts:58 | one more `get` extends a walk by the step taken from where it stopped |
| Common.WalkPastEdge | src/common/preiterable/private/common.ts:36-39 | from the last element forward (first element backward), every further step reports the done term and the index stays at the edge |
| Common.ForwardFromStart | src/common/preiterable/async.test.ts:20-29 | from `SOD`, n+2 forward steps yield all n items in order, then `EOD` twice, ending at the length |
| Common.BackwardFromEnd | src/common/preiterable/async.test.ts:31-40 | from `EOD`, n+2 backward steps yield the items reversed, then `SOD` twice, ending at -1 |
| Common.JumpThenStep | src/common/preiterable/async.test.ts:45-54 | after `jump('EOD')`, `next` gives `EOD` and `previous` the last item; after `jump('SOD')`, `previous` gives `SOD` and `next` the first item |
| Common.EmptyCursor | src/common/preiterable/async.test.ts:6-14 | on an empty array, `next` gives `EOD` and `previous` gives `SOD`, repeatedly |
| Common.Buffer.constructor | src/common/preiterable/private/common.ts:29 | the shared buffer holds the given items |
| Common.ArrayIterator.constructor | src/common/preiterable/private/common.ts:29-32 | a new cursor is valid and starts at -1, i.e. at `SOD` |
| Common.ArrayIterator.GetIncr | src/common/preiterable/private/common.ts:34-43 | the switch with fall-through moves and answers exactly as `Incr`, and keeps the index invariant |
| Common.ArrayIterator.GetDecr | src/common/preiterable/private/common.ts:45-54 | the switch with fall-through moves and answers exactly as `Decr`, and keeps the index invariant |
| Common.ArrayIterator.Jump | src/common/preiterable/private/common.ts:57 | the index becomes `JumpTo(length, term)`; the data is untouched |
| Common.ArrayIterator.Get | src/common/preiterable/private/common.ts:58 | moves and answers as `GetAt` over the data, which it never changes |
| Common.WalkArray | src/common/preiterable/async.test.ts:67-79 | k `get` calls on a fresh array cursor jumped to a term produce the reference walk |
| Lazy.Source.constructor | src/common/preiterable/async.ts:112 | a pull source starts before its first item |
| Lazy.Source.Next | src/common/preiterable/async.ts:118 | a pull yields the next item and advances, or reports the end without moving |
| Lazy.LazyArray.constructor | src/common/preiterable/async.ts:109-113 | a new lazy array has an empty buffer, an unread source, and is not complete |
| Lazy.LazyArray.LoadNext | src/common/preiterable/async.ts:115-126 | once complete it answers `EOD` without pulling; otherwise it pulls one item and appends it to the buffer, or, at the source's end, becomes complete; the buffer stays the pulled prefix of the source |
| Lazy.LazyArray.LoadAll | src/common/preiterable/async.ts:128-130 | the loop drains the source: afterwards the lazy array is complete and the buffer is every item of the source, in order |
| Lazy.LazyArray.Preload | src/common/preiterable/async.ts:144 | `preload` is `loadAll`: complete, and the buffer is the whole source |
| Lazy.LazyArray.Build | src/common/preiterable/async.ts:137-141 | a fresh cursor at `SOD` over the shared buffer, linked to this lazy array |
| Lazy.LazyArrayIterator.constructor | src/common/preiterable/async.ts:71-74 | a cursor at -1 over the lazy array's buffer |
| Lazy.LazyArrayIterator.MarkComplete | src/common/preiterable/async.ts:76-79 | afterwards `jump` and `get` are the plain array cursor's |
| Lazy.LazyArrayIterator.LoadNext | src/common/preiterable/async.ts:81-85 | at the buffer's end, pulls exactly one item, appends it, and yields it positioned on it, as a forward step over the whole source would; at the source's end it reports `EOD` and marks itself complete; a raw done result comes back only in the synchronous variant |
| Lazy.LazyArrayIterator.LoadAll | src/common/preiterable/async.ts:87-90 | drains the source and marks the cursor complete |
| Lazy.LazyArrayIterator.Jump | src/common/preiterable/async.ts:94-97 | the index becomes `JumpTo` over the whole source; `jump('EOD')` drains the source completely first, `jump('SOD')` pulls nothing |
| Lazy.LazyArrayIterator.Get | src/common/preiterable/async.ts:99-102 | moves and answers as `GetAt` over every item the source will yield; it pulls exactly one item when a `next` step passes the buffer's end and nothing otherwise, so `previous` never pulls |
| Lazy.WalkLazy | src/common/preiterable/async.test.ts:87-91 | k `get` calls on a lazy cursor produce the reference walk over the whole source |
| Lazy.ExpectLazy | src/common/preiterable/async.test.ts:81-91 | a lazy array built over a source, walked forward from `SOD` and then back, reports the source's items as an array would: items then `EOD` twice, reversed items then `SOD` twice |
| Wrapped.Keep | src/common/preiterable/async.ts:168 | the items a filter keeps are never more than the items |
| Wrapped.KeepStep | src/common/preiterable/async.ts:168 | one more item keeps one more item exactly when the filter accepts it |
| Wrapped.KeepPrefix | src/common/preiterable/async.ts:168 | filtering preserves order: what a prefix keeps is a prefix of what a longer prefix keeps |
| Wrapped.KeptAt | src/common/preiterable/async.ts:168 | each accepted item appears in the kept items at the index given by the count of accepted items before it |
| Wrapped.KeptPos | src/common/preiterable/async.ts:163 | the inner index maps to a position among the kept items that is -1 exactly at `SOD` and the end exactly at `EOD` |
| Wrapped.KeptBehindAtRest | src/common/preiterable/async.ts:165-170 | at rest on an accepted item or an edge, the items passed inside and outside the filter agree |
| Wrapped.FilterStep | src/common/preiterable/async.ts:166-169 | the skipping loop ends on the first accepted item in the direction, or on that direction's edge, which is exactly one step over the kept items |
| Wrapped.FilteredIterator.Position | src/common/preiterable/async.ts:153-157 | the position among the kept items is in bounds |
| Wrapped.FilteredIterator.constructor | src/common/preiterable/async.ts:154-157 | wraps an inner cursor at rest on an accepted item or an edge |
| Wrapped.FilteredIterator.Jump | src/common/preiterable/async.ts:163 | forwarding the jump puts the filtered position at `JumpTo` over the kept items |
| Wrapped.FilteredIterator.Get | src/common/preiterable/async.ts:165-170 | what it yields passes the filter, and it moves and answers as `GetAt` over the kept items, i.e. it returns the first matching item in the direction, or exhaustion |
| Wrapped.Map | src/common/preiterable/async.ts:217 | the transformed items: same length, item i is `transform(data[i])` |
| Wrapped.TransformedIterator.constructor | src/common/preiterable/async.ts:204-207 | wraps an inner cursor and a transform |
| Wrapped.TransformedIterator.Jump | src/common/preiterable/async.ts:211 | the jump is forwarded: the inner index becomes `JumpTo(length, term)` |
| Wrapped.TransformedIterator.Get | src/common/preiterable/async.ts:213-218 | moves and answers as `GetAt` over the transformed items, so exhaustion results pass unchanged and values pass through `transform` |
| Flatten.FlatConcat | src/common/preiterable/async.ts:265-289 | the leaves of a concatenation are the concatenated leaves, the order the flattening stacks follow |
| Flatten.FlatAround | src/common/preiterable/async.ts:279-284 | the leaves of a level are those before an item, the item's own, and those after it |
| Flatten.LeafIndex | src/common/preiterable/async.ts:287 | a leaf under the current cursor sits in the flattened sequence at the index given by the leaves left of the stack and left of the cursor |
| Flatten.RestPassed | src/common/preiterable/async.ts:243-254 | the flattened position of a stack at rest, counted from either end, is what the stack has passed |
| Flatten.StepLeaf | src/common/preiterable/async.ts:287 | when the current cursor yields a leaf, that leaf is the next flattened leaf in the direction, and the stack ends at rest one further |
| Flatten.StepPush | src/common/preiterable/async.ts:279-284 | pushing the current cursor and entering a nested node at the direction's start term keeps the stack a chain over the root, passes no leaf, and shrinks what is left to visit |
| Flatten.StepDone | src/common/preiterable/async.ts:268-276 | an exhausted current cursor stays where it is and still forms a chain |
| Flatten.StepPop | src/common/preiterable/async.ts:270-274 | popping an exhausted level makes its parent current, keeps the leaves passed, and shrinks what is left |
| Flatten.StepEnd | src/common/preiterable/async.ts:271 | with the stack empty and the root exhausted, the direction's done term is the flattened step's answer |
| Flatten.BasicLoader | src/common/preiterable/async.ts:236 | the basic loader gives a nested node a fresh cursor over its children |
| Flatten.BasicLoaderLoads | src/common/preiterable/async.ts:236 | the basic loader satisfies the loader contract the stacks rely on |
| Flatten.ChainHomogeneous | src/common/preiterable/async.ts:426-439 | in a homogeneous tree every cursor on the stack walks a homogeneous level |
| Flatten.LeafLevel | src/common/preiterable/async.ts:419-420 | in a homogeneous level one leaf means all leaves, so the cursor that produced a leaf is a plain iterator |
| HeteroStack.HeteroStackIterator.constructor | src/common/preiterable/async.ts:250-254 | starts with an empty stack and the root cursor at `SOD` |
| HeteroStack.HeteroStackIterator.Jump | src/common/preiterable/async.ts:259-263 | clears the stack, makes the stack's bottom (the root cursor) current and jumps it: the flattened position is `JumpTo` over the leaves |
| HeteroStack.HeteroStackIterator.Climb | src/common/preiterable/async.ts:271-277 | an exhausted current cursor gives way to the popped parent, shrinking what is left, or, with the stack empty, the done term comes back as `GetAt` over the flattened leaves gives it |
| HeteroStack.HeteroStackIterator.Descend | src/common/preiterable/async.ts:279-285 | the current cursor is pushed and a loaded cursor over the recursable, jumped to the start term, becomes current, shrinking what is left |
| HeteroStack.HeteroStackIterator.Get | src/common/preiterable/async.ts:265-289 | the `while (true)` loop of pops and pushes moves and answers exactly as `GetAt` over the flattened leaves; a term comes back only with the stack empty |
| HeteroStack.WalkHetero | src/common/preiterable/async.test.ts:106-128 | k `get` calls walk the flattened leaves |
| HeteroStack.ExpectFlat | src/common/preiterable/async.test.ts:106-128 | flattening any tree, walked forward from `SOD` and back, yields its leaves in depth-first order then `EOD` twice, and reversed then `SOD` twice (the 1..15 trace is an instance) |
| HomoStack.HomoStackIterator.constructor | src/common/preiterable/async.ts:390-394 | empty stack, no current iterator, root cursor at `SOD` |
| HomoStack.HomoStackIterator.Load | src/common/preiterable/async.ts:396-422 | the loop walks the stack to the next leaf or the root's edge and answers as `GetAt` over the flattened leaves; on a leaf it keeps that cursor as `curIterator` |
| HomoStack.HomoStackIterator.Jump | src/common/preiterable/async.ts:426-432 | forgets `curIterator`, clears the stack and jumps the root: the position is `JumpTo` over the leaves |
| HomoStack.HomoStackIterator.Get | src/common/preiterable/async.ts:434-439 | the `curIterator` fast path and the fallback to `load` together move and answer as `GetAt` over the flattened leaves |
| HomoStack.WalkHomo | src/common/preiterable/async.test.ts:143-153 | k `get` calls walk the flattened leaves |
| SyncStack.StackIterator.constructor | src/common/preiterable/sync.ts:165-168 | empty stack, no current iterator, base cursor at `SOD` |
| SyncStack.StackIterator.StoreTop | src/common/preiterable/sync.ts:163 | the current cursor is the stack's top, or the base cursor when the stack is empty; updating it leaves its parents alone |
| SyncStack.StackIterator.PopFrame | src/common/preiterable/sync.ts:180-185 | `stack.pop()` reports whether there was a frame; when there was, the parent becomes current, and a `curIterator` referring to the popped cursor is left referring to a stale copy |
| SyncStack.StackIterator.PushFrame | src/common/preiterable/sync.ts:193-197 | the pushed cursor becomes current above the one that was current |
| SyncStack.StackIterator.Unwind | src/common/preiterable/sync.ts:178-187 | an exhausted current cursor is popped, shrinking what is left, or, with the stack empty, ends the load with the direction's done term |
| SyncStack.StackIterator.Descend | src/common/preiterable/sync.ts:190-198 | a nested node's cursor is loaded, jumped to the direction's start term and pushed, shrinking what is left |
| SyncStack.StackIterator.Load | src/common/preiterable/sync.ts:170-206 | answers as `GetAt` over the flattened leaves; a leaf sets `curIterator` to the cursor that produced it |
| SyncStack.StackIterator.Jump | src/common/preiterable/sync.ts:211-214 | the intended jump: clears the stack, forgets `curIterator`, and gives position `JumpTo` over the leaves |
| SyncStack.StackIterator.JumpAsWritten | src/common/preiterable/sync.ts:211-214 | the jump as written: clears the stack and jumps the base cursor but keeps `curIterator`, which then refers to a cursor no longer on the stack |
| SyncStack.StackIterator.Get | src/common/preiterable/sync.ts:216-219 | with `curIterator` kept current, `get` moves and answers as `GetAt` over the flattened leaves |
| SyncStack.StackIterator.GetAsWritten | src/common/preiterable/sync.ts:216-219 | as written, a stale `curIterator` that can still yield answers the call although the flattened position does not move; otherwise it steps as `GetAt` over the leaves |
| SyncStack.StaleAfterJump | src/common/preiterable/sync.ts:211-219 | over `[[1, 2]]`: `next` gives 1, then `jump('SOD')` and `next` give 2, where a cursor over `[1, 2]` gives 1 |
| SyncStack.PairTree | src/common/preiterable/sync.ts:211-219 | the tree `[[1, 2]]` is homogeneous and flattens to `[1, 2]` |
| SyncStack.FirstLeafFrames | src/common/preiterable/sync.ts:170-205 | resting on the first leaf of `[[1, 2]]`, the stack holds one frame: the inner cursor on its first item |
| Collate.LeafRun | src/common/preiterable/sync.ts:52-56 | the leaf run at the front ends at the first recursable or at the end |
| Collate.LeafRunLeaves | src/common/preiterable/sync.ts:52-56 | the run is made of leaves |
| Collate.Runs | src/common/preiterable/async.ts:337-377 | collation never produces more items than the source |
| Collate.RunsFlat | src/common/preiterable/async.ts:347-373 | collation loses and reorders no leaf: the collated source flattens to the source's leaves |
| Collate.LeafRunAll | src/common/preiterable/async.ts:351-356 | a source of leaves only is one run |
| Collate.RunsOfLeaves | src/common/preiterable/async.ts:347-365 | a non-empty source of leaves only collates to one nested lazy array of them |
| Collate.LeafRunConcat | src/common/preiterable/async.ts:353-354 | a run stopped by a recursable is unchanged by what follows |
| Collate.RunsSplit | src/common/preiterable/async.ts:367-369 | at a recursable the source collates in independent parts, so every run is maximal |
| Collate.RunsSplitLeaf | src/common/preiterable/async.ts:347-365 | a leading leaf run becomes one nested node, followed by the collation of the rest |
| Collate.RunsNested | src/common/preiterable/async.ts:371-374 | collation emits only recursables: each is a recursable of the source or a non-empty run of its leaves |
| Collate.RunsHomogeneous | src/common/preiterable/async.ts:451-457 | when every recursable of the source is homogeneous, so is the collated source, which is what `HomoStack.flatten` needs |
| Collate.RunsCons | src/common/preiterable/async.ts:347-365 | a leaf in front opens a run that takes every leaf right after it |
| Collate.Collatable.constructor | src/common/preiterable/async.ts:343-345 | a new collatable has emitted nothing and will emit `Runs` of its source |
| Collate.Collatable.Pull | src/common/preiterable/async.ts:344 | `collator.next()` returns the next raw item and advances, or reports the end |
| Collate.Collatable.Drain | src/common/preiterable/async.ts:350-357 | the run's generator pulls the rest of a leaf run and keeps in `last` the recursable that ended it, or nothing at the end |
| Collate.Collatable.LoadNext | src/common/preiterable/async.ts:359-363 | while a run is pending, the reassigned `loadNext` drains it first and hands over what ended it, so raw order is kept; what it returns, with what is unpulled, collates to what is still to come |
| Collate.Collatable.Next | src/common/preiterable/async.ts:371-374 | `next` hands out the collated source in order, one recursable per call, then the end; outside a pending run it pulls exactly one raw item |
| Collate.Collatable.BuildValue | src/common/preiterable/async.ts:367-369 | a recursable is passed on as it is and a leaf starts a pending run; either way the result is the next collated item |
| Collate.Collatable.BuildLazyValue | src/common/preiterable/async.ts:347-365 | the lazy array for the run that a leaf opens is the leaves up to the next recursable, and the pending run is recorded |
| Collate.PullMany | src/common/preiterable/async.ts:371-374 | k `next` calls append what they return to what was emitted, and at least as many calls as remain exhaust the source |
| Collate.CollateThenFlatten | src/common/preiterable/async.test.ts:155-177 | `HomoStack.collate` then `flatten` of any source whose recursables are homogeneous walks its leaves forward then `EOD` twice, and back then `SOD` twice |
| Sizeable.Find | src/common/sizeable.ts:28 | the first entry with the key, or none exactly when no entry has it |
| Sizeable.TotalAppend | src/common/sizeable.ts:42 | the summed size of concatenated entries adds up, the bookkeeping behind `cacheSize` |
| Sizeable.Insert | src/common/sizeable.ts:41 | `Map.set` replaces an existing key's value in place (its recency is kept) and adds a new key as most recent |
| Sizeable.EvictCount | src/common/sizeable.ts:17-23 | eviction removes at least one entry, oldest first, and stops at the first point where the rest fits the limit |
| Sizeable.AfterSet | src/common/sizeable.ts:37-45 | the entries after `set` are a suffix of the inserted entries: only the oldest are evicted, possibly including the new one, and the survivors keep their order |
| Sizeable.AfterGet | src/common/sizeable.ts:27-35 | `get` keeps the number of entries; a hit puts the key's entry in the newest place, a miss changes nothing |
| Sizeable.AfterSetWithinLimit | src/common/sizeable.ts:44 | for a non-negative limit, after `set` the cache size is within the limit |
| Sizeable.AfterSetNegativeLimit | src/common/sizeable.ts:17-23 | for a negative limit, `set` evicts every entry |
| Sizeable.AfterSetKeepsFitting | src/common/sizeable.ts:37-44 | a `set` whose result fits evicts nothing |
| Sizeable.AfterGetReorders | src/common/sizeable.ts:27-35 | a hit moves the key to most recent and keeps keys distinct; a miss changes nothing |
| Sizeable.LRUCache.constructor | src/common/sizeable.ts:12-15 | an empty cache with the size limit, any integer (a negative limit empties the cache on every set) |
| Sizeable.LRUCache.Lookup | src/common/sizeable.ts:28 | `dataMap.get` finds the value stored under the key |
| Sizeable.LRUCache.EnforceSizeLimit | src/common/sizeable.ts:17-23 | the loop deletes the oldest entries as `EvictCount` says, keeping `cacheSize` equal to the sum of the stored sizes |
| Sizeable.LRUCache.Get | src/common/sizeable.ts:27-35 | returns the stored value and reorders as `AfterGet` |
| Sizeable.LRUCache.Set | src/common/sizeable.ts:37-45 | adds the size delta, stores the value and evicts as `AfterSet`, keeping `cacheSize` the sum of the stored sizes |
| Sizeable.SymbolicLRUCache.constructor | src/common/sizeable.ts:59 | an empty base cache with the limit, any integer, and the loader |
| Sizeable.SymbolicLRUCache.Get | src/common/sizeable.ts:63-70 | keyed by the key's identity: a hit returns the cached value and reorders; a miss calls the loader once and stores only what it loaded |
| Sizeable.Stack.constructor | src/common/sizeable.ts:76 | a stack over the given items |
| Sizeable.Stack.Top | src/common/sizeable.ts:79 | the most recently pushed item, none exactly when empty |
| Sizeable.Stack.Clear | src/common/sizeable.ts:81-87 | empties the stack and returns the earliest pushed item, or none |
| Sizeable.Stack.Pop | src/common/sizeable.ts:89 | removes and returns the most recent item, or none on an empty stack |
| Sizeable.Stack.Push | src/common/sizeable.ts:90 | puts the item in front and adds its size to the stack's size |
| Sizeable.PushThenPop | src/common/sizeable.ts:89-90 | the stack is LIFO: pushing then popping returns the pushed item and restores the items |
| Mergeable.ReversePriority | src/common/codec/mergeable.ts:5 | the reversed merge applies the original with its arguments swapped |
| Mergeable.ReverseTwice | src/common/codec/mergeable.ts:5 | reversing twice is the original merge |
| Mergeable.BooleanAnd | src/common/codec/mergeable.ts:40 | the `booleanAnd` merge: with `true` the other value is kept, and any `false` gives `false`, the AND table of the tests |
| Mergeable.BooleanOr | src/common/codec/mergeable.ts:41 | the `booleanOr` merge: with `false` the other value is kept, and any `true` gives `true`, the OR table of the tests |
| Mergeable.BooleanTables | src/common/codec/mergeable.ts:40-41 | both boolean merges are symmetric |
| Mergeable.ArrayMerge | src/common/codec/mergeable.ts:43-46 | the merge is concatenation: a's elements, then b's |
| Mergeable.ArrayMergeLaws | src/common/codec/mergeable.test.ts:19-30 | `[]` is an identity on both sides, and the merge is associative |
| Mergeable.MergeReplace | src/common/codec/mergeable.ts:31 | `mergeReplace`: the later value wins |
| Mergeable.FieldMerge | src/common/codec/mergeable.ts:31-38 | a field merges with its codec's merge when mergeable, and otherwise b replaces a |
| Mergeable.PropsMergeFuncs | src/common/codec/mergeable.ts:33-38 | one merge function per declared key, each the field merge |
| Mergeable.PartialMerge | src/common/codec/mergeable.ts:54-60 | the reduce over declared keys keeps exactly the declared keys present in a or b, with each value chosen by cases |
| Mergeable.Partial | src/common/codec/mergeable.ts:48-62 | only declared keys present in a or b; a's value when b lacks the key, b's when a lacks it, the field merge when both have it |
| Mergeable.TypeMerge | src/common/codec/mergeable.ts:70-73 | the reduce puts every declared key, with its merge function applied to both values |
| Mergeable.Type | src/common/codec/mergeable.ts:64-75 | exactly the declared keys, each the field merge of both values |
| Mergeable.FindCodec | src/common/codec/mergeable.ts:78 | `codecs.find` picks the first codec accepting the value, or none exactly when no codec does |
| Mergeable.FirstAcceptingUnique | src/common/codec/mergeable.ts:78 | at most one codec is the first to accept a value |
| Mergeable.Union | src/common/codec/mergeable.ts:77-89 | with a's codec the first accepting a: the codec's merge when it is mergeable and accepts b, and b otherwise |
| Mergeable.UnionOfPlain | src/common/codec/mergeable.test.ts:56-69 | a union of plain codecs always returns b |
| Mergeable.PartialContainsArray | src/common/codec/mergeable.test.ts:78-90 | a partial with a plain array field and a mergeable array field replaces the first and concatenates the second |
| Mergeable.StrOrArrayCodecs | src/common/codec/mergeable.test.ts:106-107 | the string codec accepts strings and the mergeable array codec arrays |
| Mergeable.MergeArr | src/common/codec/mergeable.ts:43-46 | the merge of the test's mergeable array: two arrays concatenate, the first one's items in front; otherwise the later value wins |
| Mergeable.UnionIncludedArray | src/common/codec/mergeable.test.ts:106-113 | over string or mergeable array, the union merge concatenates two arrays and returns b in the other three cases |
| Cli.DecodeFlag | src/common/codec/cli/command.ts:88 | a flag decoder advances the index by at most one, and only over a non-flag token; a decoded value has the flag's kind |
| Cli.BooleanFlagDecodes | src/common/codec/cli/flag.ts:14-25 | the boolean flag never fails; it consumes the next token exactly when it is `true` or `false` and gives false exactly for `false`. The older copy in src/common/codec/cli/flags.ts:15-26 is the same decoder |
| Cli.StringFlagDecodes | src/common/codec/cli/flag.ts:32-35 | the string flag fails exactly when no non-flag token is available, without moving; otherwise it consumes one token and gives it. Same as src/common/codec/cli/flags.ts:33-36 |
| Cli.SingleArgDecodes | src/common/codec/cli/flag.ts:39 | a single-argument flag consumes a string as the string flag does and then parses it, failing with the token when the parse fails. Same as src/common/codec/cli/flags.ts:40-43 |
| Cli.EncodeFlag | src/common/codec/cli/flag.ts:26 | each flag encodes to exactly one token: `String(a)` for booleans, `a` for strings, the rendered value for single-argument flags |
| Cli.FlagRoundTrip | src/common/codec/cli/flag.ts:26-36 | decoding a flag's encoding gives the value back and consumes the one token, for every kind whose parse inverts its render |
| Cli.Encode | src/common/codec/cli/command.ts:110-116 | `encode` keeps `args` and the flag names and maps each value through its flag's encoder |
| Cli.Record | src/common/codec/cli/command.ts:92-105 | recording a flag touches only its own key; a first occurrence, or a repeat of a non-mergeable flag, stores the new value |
| Cli.ArgsOnlyFrom | src/common/codec/cli/command.ts:81-85 | with no flag token left, every remaining token is appended to `args` in order |
| Cli.ArgsOnly | src/common/codec/cli.test.ts:31-37 | a command line without flags decodes to those arguments and no flags |
| Cli.DecodeFromRecords | src/common/codec/cli/command.ts:81-106 | from any point, the decoded flags are the flags so far plus the flag names met, and each argument was there before or is a non-flag token met |
| Cli.DecodeFrom | src/common/codec/cli/command.ts:81-106 | the loop from any point only adds: the arguments so far stay in front, at most one argument per remaining token is added, and the flags so far stay recorded next to flags of the set only |
| Cli.Decode | src/common/codec/cli/command.ts:77-109 | `validate`: a decoded command has no more arguments than tokens and only flags of the flag set |
| Cli.ArgPositions | src/common/codec/cli/command.ts:81-88 | the positions of the positional arguments: non-flag tokens that no flag decoder took (a position is taken when the flag token before it consumes it) |
| Cli.ArgPositionsTake | src/common/codec/cli/command.ts:82-84 | a non-flag token that no flag took is the next argument position |
| Cli.ArgPositionsSkip | src/common/codec/cli/command.ts:87-88 | a flag token is not an argument position, nor is the token its decoder consumes |
| Cli.ArgPositionsExact | src/common/codec/cli/command.ts:81-88 | the argument positions are exactly the non-flag tokens no flag takes, all of them, in increasing order |
| Cli.DecodeFromArgs | src/common/codec/cli/command.ts:81-106 | from a position no flag took, a successful decode appends exactly the tokens at the argument positions, in order |
| Cli.DecodeFromStep | src/common/codec/cli/command.ts:82-105 | one turn of the loop: a non-flag token is appended; a flag fails the decode exactly when its decoder fails, and otherwise the loop goes on after what it consumed |
| Cli.DecodeFromFails | src/common/codec/cli/command.ts:88-90 | from a position no flag took, the decode fails exactly when some flag's decoder fails |
| Cli.DecodeFromFirstError | src/common/codec/cli/command.ts:88-90 | the decode then returns the error of the first failing flag |
| Cli.DecodeRecords | src/common/codec/cli/command.ts:77-109 | a decoded command has exactly the flags named on the command line, and as `args` exactly the tokens at the argument positions, in their order |
| Cli.DecodeFails | src/common/codec/cli/command.ts:88-90 | decoding fails exactly when some flag's decoder fails, with the error of the first such flag |
| Cli.TrailingFlagFailsFrom | src/common/codec/cli/command.ts:90 | a command line ending in a flag that needs an argument fails from any point |
| Cli.TrailingFlagFails | src/common/codec/cli/command.ts:87-90 | such a command line fails to decode: a failing flag decoder fails the whole decode |
| Cli.Input.constructor | src/common/codec/cli/command.ts:17-20 | the input starts at its first token |
| Cli.Input.Peek | src/common/codec/cli/command.ts:26-29 | `peek` gives the current token exactly when there is one and it is not a flag name, and does not move |
| Cli.Input.Consume | src/common/codec/cli/command.ts:31-35 | `consume` returns what `peek` would and advances by one exactly when that is a token |
| Cli.Input.Next | src/common/codec/cli/command.ts:37-45 | `next` returns the current token tagged flag or non-flag and advances by one; at the end it returns nothing and does not move |
| Cli.ValidateBoolean | src/common/codec/cli/flag.ts:14-25 | driving the `Input` with `peek` and `consume` gives the boolean decoder's result and new index |
| Cli.ValidateString | src/common/codec/cli/flag.ts:32-35 | driving the `Input` with `consume` gives the string decoder's result and new index |
| Cli.ValidateSingleArg | src/common/codec/cli/flag.ts:39 | the string decoder piped into the parse gives the single-argument decoder's result and new index |
| Cli.ValidateFlag | src/common/codec/cli/command.ts:88 | the flag's own validator gives `DecodeFlag`'s result and new index |
| Cli.DecodeCommand | src/common/codec/cli/command.ts:77-109 | the `for` loop over `cmdInput.next()` returns exactly the recursive decode: arguments in order, flags recorded or merged, the first failure returned |
| Cli.BooleanFlagsOnly | src/common/codec/cli.test.ts:39-48 | `--testBoolOne --testBoolTwo false` decodes to no arguments and the flags true and false |
| Cli.RepeatedFlagLastWins | src/common/codec/cli/command.ts:103-105 | a repeated non-mergeable flag keeps its last value |
| Cli.RepeatedFlagMerges | src/common/codec/cli/command.ts:103-104 | a repeated mergeable flag merges the earlier value with the new one |
| FromString.DecodeString | src/common/codec/fromstring.ts:10-15 | every string decodes to itself |
| FromString.EncodeString | src/common/codec/fromstring.ts:14 | encoding is the identity, so decoding it returns the string |
| FromString.DecodeBoolean | src/common/codec/fromstring.ts:27-35 | succeeds exactly on `true` and `false`, giving true exactly for `true`; fails with the input otherwise |
| FromString.EncodeBoolean | src/common/codec/fromstring.ts:36 | `String(b)`: always `true` or `false`, and `true` exactly for true |
| FromString.BooleanRoundTrip | src/common/codec/fromstring.ts:27-36 | decoding `String(b)` gives b, and encoding a decoded value gives the input back |
| FromString.MembershipOf | src/common/codec/fromstring.ts:92-98 | the record built by the reduce holds exactly the listed items |
| FromString.DecodeLiteral | src/common/codec/fromstring.ts:108 | succeeds exactly on a listed item, unchanged; fails with the input otherwise |
| FromString.LiteralRoundTrip | src/common/codec/fromstring.ts:107-109 | `is` holds exactly for a listed string, and such a string decodes to itself |
| Codec.DecodeLiteralUnion | src/common/codec/index.ts:42-45 | validation first requires a string, then membership: success exactly for a listed string, unchanged |
| Codec.LiteralUnionAgreesWithIs | src/common/codec/index.ts:34-49 | the two-step validation succeeds exactly when `is` holds, with the value unchanged |
| Codec.ValidateMemo | src/common/codec/index.ts:51-54 | a memo is valid exactly when the pattern is non-empty and flags, when present, are non-empty |
| Codec.IndexOf | src/common/codec/index.ts:71 | `indexOf('/', 1)` is the first '/' from position 1, or -1 when there is none |
| Codec.SplitRegExp | src/common/codec/index.ts:69-74 | no split exactly when the input does not start with '/' or has no second '/'; otherwise the input is `/pattern/flags` with no '/' in the pattern |
| Codec.RegExpFromStringAsWritten | src/common/codec/index.ts:68-76 | as written, a decoded memo always has flags present: the text after the second '/' |
| Codec.RegExpFromString | src/common/codec/index.ts:68-76 | corrected: succeeds exactly when the split exists with a non-empty pattern; the memo is valid, and empty flags read as absent |
| Codec.RegExpToString | src/common/codec/index.ts:77-80 | renders `/pattern/flags`, with nothing after the second '/' when flags are absent |
| Codec.RegExpRoundTrip | src/common/codec/index.ts:68-80 | decoding the rendering of a valid memo whose pattern has no '/' gives the memo back |
| Codec.RegExpRoundTripString | src/common/codec/index.ts:68-80 | rendering a decoded memo gives the input back |
| Codec.FlaglessRegExpRejected | src/common/codec/index.ts:74-75 | the valid memo `abc` without flags renders as `/abc/`, which the as-written decoder rejects |
| Paths.TrimTrailingSlashes | src/main/classify/filter.ts:12 | the path without its trailing '/'s |
| Paths.LastIndexOf | src/data/mime.ts:69 | the last index of a character, or -1 |
| Paths.Basename | src/main/classify/filter.ts:12 | the last path segment after trailing '/'s are trimmed, holding no '/' |
| Paths.Extname | src/data/mime.ts:69 | empty, or a '.' and no further '.' or '/', ending the basename and shorter than it; when the last '.' of the basename is not its first character (and the basename is not `..`) the result is the basename from that '.', and a basename without '.' gives empty (a leading dot is not an extension) |
| Paths.Lower | src/data/mime.ts:69 | `toLowerCase` character by character (ASCII) |
| Paths.LowerOfLower | src/data/mime.ts:69 | a string without upper-case letters is unchanged by `toLowerCase` |
| Paths.NoSlashConcat | src/main/classify/filter.ts:12 | joining two names without '/' gives a name without '/' |
| Paths.BasenameOfPlain | src/main/classify/filter.ts:12 | a path without '/' is its own basename |
| Paths.BasenameExamples | src/main/classify/filter.ts:12-15 | `basename` of `/dir/file.png`, `/dir/sub/` and `/` |
| Paths.ExtnameLastDot | src/data/mime.ts:69 | the extension is taken from the last '.' |
| Paths.ExtnameDotFile | src/data/mime.ts:69 | a dotfile has no extension |
| Paths.ExtnameDots | src/data/mime.ts:69 | `..` has no extension and `file.` has `.` |
| Mime.SubtypeFromName | src/data/mime.ts:36-42 | the subtype a name denotes |
| Mime.TypeName | src/data/mime.ts:4-7 | the type names `image` and `video`: five letters, no `/`, and `image` exactly for images |
| Mime.SubtypeName | src/data/mime.ts:12-41 | the subtype names of the literal unions: not empty and without `/` |
| Mime.SubtypeNameRoundTrip | src/data/mime.ts:12-31 | every subtype's name reads back as that subtype |
| Mime.ToString | src/data/mime.ts:48 | `type/subtype`. The copy in src/render/mime.ts:34 is the same |
| Mime.ToStringInjective | src/data/mime.ts:48 | different MIME data render differently |
| Mime.ImageExtension | src/data/mime.ts:50-61 | the image table: `jpg` and `jpeg` to jpeg, `svg` to svg+xml, `ico` to x-icon, and so on; only image subtypes |
| Mime.VideoExtension | src/data/mime.ts:63-66 | the video table: `mp4` to mpeg4 and `webm` to webm; only video subtypes |
| Mime.ExtKey | src/data/mime.ts:69-70 | the extension, lower-cased, with its leading '.' stripped |
| Mime.Lookup | src/data/mime.ts:72-78 | the video table first, then the image table, otherwise nothing |
| Mime.FromExt | src/data/mime.ts:68-79 | a found MIME type has a subtype of its type |
| Mime.LookupAgreesWithTable | src/data/mime.ts:50-66 | an extension maps to a MIME type exactly when the tables list it for that type |
| Mime.ExtKeyOfPlainName | src/data/mime.ts:69-70 | a name without '/' whose last '.' is at k, not first, has everything after that dot, lower-cased, as its key |
| Mime.FromExtAgreesWithTable | src/data/mime.ts:68-79 | `fromExt` of a path is a MIME type exactly when the tables list the path's lower-cased extension, without its dot, for that type. The copy in src/render/mime.ts:54-65 is the same |
| MimeExamples.ExtKeyOfStem | src/data/mime.ts:69-70 | a plain stem followed by a dot and three letters has those letters, lower-cased, as its key |
| MimeExamples.FromExtOfStem | src/data/mime.ts:68-79 | `fromExt` of such a name is the table lookup of that key |
| MimeExamples.FromExtUpperCase | src/data/mime.ts:69-70 | every plain stem with `.JPG`, such as `photo.JPG`, is image/jpeg |
| MimeExamples.FromExtVideo | src/data/mime.ts:72-73 | `/media/clip.mp4` is video/mpeg4 |
| MimeExamples.DotFileExtname | src/data/mime.ts:69 | a dot followed by a plain stem has no extension |
| MimeExamples.FromExtDotFile | src/data/mime.ts:69-78 | every dot file such as `.png` has no extension and no MIME type |
| MimeExamples.FromExtUnknown | src/data/mime.ts:78 | an extension in neither table, such as that of `notes.txt`, gives nothing |
| Mime.FromData | src/data/mime.ts:81-84 | `fromData` never finds a MIME type. Same as src/render/mime.ts:67-70 |
| Filters.Every | src/common/filter.ts:4 | the merge of filters accepts exactly when every filter accepts |
| Filters.EveryConcat | src/common/filter.ts:4 | merging two lists of filters is the conjunction of their merges |
| Filters.EveryUnit | src/common/filter.ts:4 | the empty merge accepts everything, and the merge of one filter is that filter |
| Filters.MergeFilters | src/filters/base.ts:3-8 | the loop returns `Every`; it stops at the first rejecting filter, having tested only the filters before it |
| Filters.KindName | src/common/filter.ts:7 | the kind with its first character upper-cased, followed by `Filter` |
| FilterExamples.KindNameExact | src/common/filter.ts:21-24 | `exact` names `ExactFilter` |
| FilterExamples.KindNameRegExp | src/common/filter.ts:21-24 | `regExp` names `RegExpFilter` |
| FilterExamples.KindNameMimeSubtype | src/common/filter.ts:21-24 | `mimeSubtype` names `MimeSubtypeFilter` |
| Filters.RejectsName | src/main/classify/filter.ts:12-15 | the string test of `buildExact`, `buildPrefix`, `buildSuffix` and `buildRegExp` holds exactly when the name equals the target, starts with the prefix, ends with the suffix, or matches the expression |
| Filters.ClassifyAccepts | src/main/classify/filter.ts:12-15 | each classify filter accepts an item exactly when the basename of its URL does not match it |
| Filters.ClassifyMerge | src/main/classify/filter.ts:10 | merged classify filters accept exactly when no filter's condition matches the basename |
| Filters.ClassifyPlainName | src/main/classify/filter.ts:12-15 | a URL without '/' is judged on the whole URL |
| FilterExamples.ExactAccepts | src/main/classify/filter.test.ts:29-31 | `exact someitem` accepts every other plain name, such as `otheritem` |
| FilterExamples.ExactRejects | src/main/classify/filter.test.ts:29-31 | an exact filter rejects its own target, such as `someitem` |
| FilterExamples.PrefixAccepts | src/main/classify/filter.test.ts:34-36 | `prefix someprefix` accepts `otherprefix` followed by any plain name, such as `otherprefixitem` |
| FilterExamples.PrefixRejects | src/main/classify/filter.test.ts:34-36 | `prefix someprefix` rejects `someprefix` followed by any plain name, such as `someprefixitem` |
| FilterExamples.SuffixAccepts | src/main/classify/filter.test.ts:39-41 | `suffix somesuffix` accepts any plain name followed by `othersuffix`, such as `itemothersuffix` |
| FilterExamples.SuffixRejects | src/main/classify/filter.test.ts:39-41 | `suffix somesuffix` rejects any plain name followed by `somesuffix`, such as `itemsomesuffix` |
| FilterExamples.RegExpAccepts | src/main/classify/filter.test.ts:44-46 | a digits-only expression accepts every plain name starting with a letter, such as `characters` |
| FilterExamples.RegExpRejects | src/main/classify/filter.test.ts:44-46 | a digits-only expression rejects every name of digits, such as `12345` |
| FilterExamples.ExactUsesBasename | src/main/classify/filter.ts:12 | the exact filter compares only the basename: `a.png` rejects `/pictures/a.png` |
| Filters.LoadAccepts | src/render/load/filter.ts:9-10 | `buildMIMEType` rejects exactly the items of its MIME type and `buildMIMESubtype` exactly those of its subtype |
| Filters.LoadReadsOnlyMime | src/render/load/filter.ts:9-10 | items with equal MIME data are treated alike |
| FilterExamples.LoadExamples | src/render/load/filter.test.ts:36-45 | `mimeType image` accepts video/mpeg4 and rejects image/jpeg; `mimeSubtype png` accepts image/jpeg and rejects image/png |

## Left out

- Electron IPC, stores, UI elements, application lifecycle and the filesystem and HTTP producers are not part of this model; pull sources are sequences.
- Asynchrony and concurrency: every `await` is a plain call. Several cursors racing to grow one lazy buffer are not modelled.
- Wrapped.FilteredIterator, Wrapped.TransformedIterator: the wrapped cursor is an array cursor (`Common.ArrayIterator`). The source wraps any cursor, and the application wraps flattening stacks and transformed cursors (src/main/classify/classifier.ts:77-79, src/render/load/index.ts:32-33). The wrappers' contracts are proved for an inner array cursor only. Every other cursor of the model is proved to step as `GetAt` over its own reference sequence, just as the array cursor does, but that is not carried over to the wrappers.
- Pull failures, loader exceptions and rejections are not modelled, so the stacks carry no "unchanged on failure" guarantee (async.ts pushes before the loader can throw).
- `HeteroStack.collate` is a `LazyArray` over the raw source, which `Lazy.LazyArray` already covers; it has no separate member.
- The synchronous `MixedIterator` (sync.ts 43-78) and `LazyArray.collate` (sync.ts 114-117) are the same algorithm as `HomoCollatable` and are covered by `Collate.Collatable`. The lazy arrays of runs are modelled by the runs they fill.
- The synchronous `LazyArray` and its cursor (sync.ts 83-153) are `Lazy.LazyArray` and `Lazy.LazyArrayIterator` with `sync` set. The only difference is the raw done result on first exhaustion, read through `Common.Settle`.
- `cachedLoader` and `Stack.basicLoader`: a loader is any function satisfying `Flatten.Loads` (a fresh cursor over the node's children). A cached loader that hands back a cursor built earlier is modelled only through `Sizeable.SymbolicLRUCache`, not inside the stacks. Cursors kept in the cache are not shared between traversals in the model.
- `size` getters of the cursors and stacks: modelled as functions without contracts of their own. The advisory stack size is not related to anything.
- Sizeable.LRUCache: value sizes are fixed functions of the value. Values whose size changes after insertion are not modelled. Sizes are natural numbers and the limit an integer, whereas the source's are JavaScript numbers, so fractional sizes and limits are not modelled.
- The identity of recursables (`id: symbol`) is a number supplied by the caller (`idOf`).
- io-ts schema composition: memoized codecs, `types.ts`, `is` predicates beyond the ones listed, and error reporting contexts are not part of this model. Errors are a plain error value.
- The command `is` predicate (command.ts 69-76) is not modelled. It checks the top-level keys of the value rather than its `flags`.
- Number and integer flags and from-string codecs are not modelled: they use JavaScript floating point. A single-argument flag takes any parse function.
- Filesystem path brands (`statSync`) are I/O and are not modelled.
- RegExp construction and `test` are foreign: a regular-expression filter holds an abstract predicate. `RegExpFromString` does not check that the pattern compiles.
- Node's `path.basename` and `path.extname` are modelled for POSIX paths only, with no Windows separators.
- `toLowerCase` and `toUpperCase` map ASCII letters only.
- FromString.MembershipOf: the edge case of an own property check on names such as `__proto__` is not modelled.
- Filters.KindName: requires a non-empty kind, because the source then reads `kind[0]` as undefined and throws.
- The conflicting filter copies in src/render/parse and src/filters (other than base.ts) are not part of this model.

## Findings

| source | as written | input that shows it | evidently intended | confidence | as-written member | corrected member |
|---|---|---|---|---|---|---|
| src/common/preiterable/sync.ts:211-219 | `jump` clears the stack and jumps the base cursor but never clears `curIterator`, and `load` never clears it either, so `get` asks a cursor that is no longer on the stack | tree `[[1, 2]]`: `next` gives 1, `jump('SOD')`, then `next` gives 2 instead of 1 | forget `curIterator` on `jump` and on `load`, as `HomoStackIterator` in async.ts 396-432 does | not executed | SyncStack.StackIterator.JumpAsWritten, SyncStack.StackIterator.GetAsWritten, SyncStack.StaleAfterJump | SyncStack.StackIterator.Jump, SyncStack.StackIterator.Get |
| src/common/codec/index.ts:68-76 | `fromString` always passes `flags: i.slice(endIdx + 1)`, which is the empty string when no flags follow the second '/'; `flags` must be a `NonEmptyString` when present | `"/abc/"`, the rendering of a RegExp without flags: the flags `""` fail validation, so the encoding does not decode | empty flags read as absent, so that a flag-less expression round-trips | not executed; reads the three-argument `super` call of index.ts:60-63 as `memoized.Type.from(RegExpMemo, build)` (memoized.ts:25-41), since the six-parameter constructor of memoized.ts:16-23 does not take it and only that reading gives the `memo` and `validateMemo` the filters use; also depends on io-ts `partial` rejecting a present empty string | Codec.RegExpFromStringAsWritten, Codec.FlaglessRegExpRejected | Codec.RegExpFromString, Codec.RegExpRoundTrip |

# BouncingBalls: the linked list and the ball lifetime pass, in Dafny

BouncingBalls animates a handful of balls in an SDL window. It keeps them in a singly
linked list of opaque item references (`BouncingBalls/src/list.c`), walked each frame by
a forward iterator whose `list_next` moves the cursor on *before* it hands out the
current item. The animation loop (`bouncing_balls` in `BouncingBalls/src/main.c`)
relies on exactly that. Each ball has a time to live (`ttl`) of 300 frames. During the
per-frame walk a ball loses one frame of `ttl`, and it is unlinked from the list as soon
as its `ttl` reaches 0, while the same walk goes on. The loop stops once the list is
empty or a quit event has been polled. The balls still listed are destroyed at the end.

The model has three files:

- `list_spec.dfy` (module `ListSpec`) states what the list does on plain sequences:
  - where an item first occurs (`FirstIndex`);
  - what removing its first occurrence leaves (`RemoveFirst`, `Without`);
  - why removing the item just handed out by the iterator does not disturb the
    iterator (`RemoveBehindCursor`, `CursorAfterRemove`).
- `list.dfy` (module `LinkedList`) is the list itself: classes `Node`, `List` and
  `ListIterator` with the fields of `list.c` (`head`, `numitems`, `next`, `list`).
  - Every method is proved against the ghost sequences `nodes` (the linked nodes, in
    order) and `Items` (their items).
  - The object invariant `List.Valid` ties the links, the count and these
    sequences together.
  - The iterator's position is read off its `next` field (`Cursor`, `Remaining`).
- `balls.dfy` (module `BouncingBalls`) is the lifetime bookkeeping of
  `bouncing_balls`. A ball is reduced to its `ttl`.
  - A frame's walk is proved against two reference functions of the frame's starting
    list and lifetimes: `Survivors` (the balls that live through the frame, in list
    order) and `Expired` (the balls unlinked in it).
  - Properties of those two functions are proved as lemmas.
  - Allocation success of each ball and the quit signal of each frame come in as
    parameters (`allocOk`, `quit`).

## Model

| member | source | states |
|---|---|---|
| LinkedList.List.constructor | BouncingBalls/src/list.c:23-35 | the new list is valid, has no head node, a count of 0 and no items |
| LinkedList.List.AddFirst | BouncingBalls/src/list.c:57-74 | the item becomes the first element, the old elements follow it in their old order, and the count grows by exactly one |
| LinkedList.List.AddLast | BouncingBalls/src/list.c:77-107 | the item becomes the last element; the old nodes and items stay in place and in order; the count grows by exactly one; on an empty list it delegates to AddFirst |
| LinkedList.List.Remove | BouncingBalls/src/list.c:110-139 | the items become `RemoveFirst(old items, item)`, where only the first identical item goes; the nodes lose exactly the position `FirstIndex` names; the count drops by one if the item was present and is unchanged otherwise |
| LinkedList.List.Unlink | BouncingBalls/src/list.c:123-133 | unlinking the node at position k, through its predecessor or through `head`, removes exactly position k from the nodes and from the items, keeps the list valid, and decrements the count |
| LinkedList.List.Size | BouncingBalls/src/list.c:142-145 | returns the number of stored items (the invariant makes `numitems` the number of linked nodes) |
| LinkedList.ListIterator.Cursor | BouncingBalls/src/list.c:150-153 | the cursor position lies within the list, and the node there is the iterator's `next` node |
| LinkedList.ListIterator.constructor | BouncingBalls/src/list.c:157-169 | a new iterator is valid, bound to its list and positioned at the head |
| LinkedList.ListIterator.Next | BouncingBalls/src/list.c:180-192 | at the end it returns None and stays at the end; otherwise it returns the first item still to come, advances the cursor by one, and what is still to come loses exactly that item |
| LinkedList.ListIterator.Reset | BouncingBalls/src/list.c:196-203 | the cursor returns to the head of the list as it is now |
| LinkedList.FromTheHead | BouncingBalls/src/list.c:157-169 | an iterator at the head still has every item of the list to hand out, in list order |
| LinkedList.RemoveJustReturned | BouncingBalls/src/list.c:188-191 | after the caller removes the item Next has just returned, the iterator is still valid; its cursor points at the same node one position earlier, and the items still to come are unchanged |
| ListSpec.FirstIndex | BouncingBalls/src/list.c:119-138 | the search result is the first position holding the item, or the length exactly when the item is absent |
| ListSpec.RemoveFirstIsWithout | BouncingBalls/src/list.c:122-138 | removing the first occurrence takes out exactly the position `FirstIndex` names; all elements before and after it stay in order |
| ListSpec.RemoveFirstAbsent | BouncingBalls/src/list.c:122-138 | removing an item that does not occur changes nothing |
| ListSpec.RemoveFirstMultiset | BouncingBalls/src/list.c:122-138 | removal takes out exactly one copy of the item, only when one exists; every other item, duplicates included, stays |
| ListSpec.RemoveFirstAppend | BouncingBalls/src/list.c:122-138 | when the item is not in a front part, removal leaves the front part alone and acts on the rest |
| ListSpec.DistinctWithout | BouncingBalls/src/list.c:124-128 | unlinking a node keeps the nodes free of repetitions |
| ListSpec.RemoveBehindCursor | BouncingBalls/src/list.c:188-191 | the item just handed out sits before the cursor, so removing it leaves the items from the cursor on unchanged |
| ListSpec.CursorAfterRemove | BouncingBalls/src/list.c:188-191 | a node after the removed position is still linked and moves exactly one place towards the head |
| BouncingBalls.Ball.constructor | BouncingBalls/src/object.c:44 | a newly created object has a ttl of 0 |
| BouncingBalls.SpawnCount | BouncingBalls/src/main.c:74-79 | no more balls are created than there are attempts |
| BouncingBalls.SpawnBalls | BouncingBalls/src/main.c:65-91 | the list is valid and new, holds one distinct new ball per successful creation among the NUM_BALLS = 10 attempts, and each holds a ttl of BALL_TTL_FRAMES = 300 |
| BouncingBalls.SurvivorsWithin | BouncingBalls/src/main.c:125-134 | the walk keeps and unlinks only balls that were listed |
| BouncingBalls.SurvivorsMembers | BouncingBalls/src/main.c:127-134 | a ball survives the frame exactly when it is listed with a ttl above 1, and is unlinked in it exactly when it is listed with a ttl of at most 1 |
| BouncingBalls.SurvivorsPartition | BouncingBalls/src/main.c:125-134 | every listed ball either survives the frame or is unlinked in it, never both and never twice (as multisets) |
| BouncingBalls.SurvivorsDistinct | BouncingBalls/src/main.c:125-134 | the survivors and the unlinked balls of a list without repetitions have none either |
| BouncingBalls.AllSurvive | BouncingBalls/src/main.c:127-134 | when every ttl exceeds 1 nobody is unlinked and the list stays as it was |
| BouncingBalls.NoneSurvive | BouncingBalls/src/main.c:127-134 | when no ttl exceeds 1 every ball is unlinked, in list order |
| BouncingBalls.UniformFrame | BouncingBalls/src/main.c:127-134 | with a common ttl t, the frame keeps the whole list when t > 1 and unlinks all of it when t <= 1 |
| BouncingBalls.TickBall | BouncingBalls/src/main.c:127-129 | the ball's ttl becomes one less when positive and stays 0 otherwise; the other balls keep theirs |
| BouncingBalls.Expire | BouncingBalls/src/main.c:130-134 | a ball whose ttl has reached 0 is unlinked; the list becomes the survivors so far followed by the balls not yet visited, and the iterator still points at the next of those |
| BouncingBalls.AgeBall | BouncingBalls/src/main.c:126-134 | the ball is unlinked exactly when its ttl runs out in this frame; the list, the expired balls, the cursor and the ttls advance by exactly this ball |
| BouncingBalls.Visit | BouncingBalls/src/main.c:125-134 | one call of `list_next` in the walk: None exactly when every ball has been visited; otherwise the next ball of the starting list, aged and, if expired, unlinked and recorded |
| BouncingBalls.Prune | BouncingBalls/src/main.c:124-134 | after the walk, the list is exactly the surviving balls in their old order; the destroyed balls are exactly the expired ones, in walk order; every ball has aged by one frame |
| BouncingBalls.Frame | BouncingBalls/src/main.c:124-170 | one frame: the walk; then the loop goes on exactly when the list is not empty and no quit was polled; the iterator is back at the head |
| BouncingBalls.AnimateFrame | BouncingBalls/src/main.c:112-172 | a frame where every ball has the same ttl t: each ttl becomes t - 1 (or stays 0); the list stays whole when t > 1 and empties when t <= 1 |
| BouncingBalls.Animate | BouncingBalls/src/main.c:112-173 | it runs at least 1 and at most 300 frames, and no quit is polled before the last one; it stops early only on a quit or an empty list. The list ends empty exactly when it started empty or all 300 frames ran, with every ball then expired together; otherwise it is unchanged. Every ball's ttl ends at 300 minus the number of frames |
| BouncingBalls.NextAt | BouncingBalls/src/main.c:178 | during the clean-up, `list_next` hands out the item at the cursor and advances, or reports the end |
| BouncingBalls.DestroyAll | BouncingBalls/src/main.c:175-181 | a walk from the head with `list_next` until it reports the end destroys exactly the listed items, once each, in list order |
| BouncingBalls.Cleanup | BouncingBalls/src/main.c:175-183 | the balls destroyed in the clean-up are exactly those still listed, in list order |
| BouncingBalls.RunBouncingBalls | BouncingBalls/src/main.c:64-184 | the balls created are new and distinct, one per successful creation; the expired balls followed by the clean-up's destroyed balls are exactly those created balls, so each is destroyed exactly once and no other ball is; in one run either no ball expires or none is left to the clean-up; balls expire only when all 300 frames ran; the run takes 1 to 300 frames, no quit is polled before the last one, and it ends before frame 300 only on a quit or when no ball was created; every created ball ends with a ttl of 300 minus the number of frames; with no quit during the first 300 frames and at least one ball, the animation runs exactly 300 frames and nothing is left to clean up; a non-empty clean-up means a quit ended the loop early; with no balls the loop runs one frame |

## Left out

- Null list and null iterator arguments (the `if (!list)` and `if (!iter)` guards and `list ? ... : NULL`): Dafny references in this model are never null, so these guards have no counterpart.
- Allocation failure in `list.c` (`malloc` returning NULL in `list_create`, `list_addfirst`, `list_addlast` and `list_createiterator`): the model always allocates. A failed node allocation would leave the list unchanged.
- Allocation failure in `main.c`: the failure of `list_create` (main.c:65-69) and of `list_createiterator` (the recovery path at main.c:101-111 and the `if (it2)` test at main.c:176) is not modelled. The failure of `create_object` is modelled through the parameter `allocOk`.
- `list_destroy`, `list_destroyiterator` and `destroy_object` release memory, and the `free` of an unlinked node: Dafny has no explicit deallocation. The destroyed balls are recorded as the sequences `expired` and `destroyed`. The ghost footprint `Repr` keeps unlinked nodes, which are never linked again.
- LinkedList.List.Size: `numitems` is a C `int`; the model counts with unbounded integers, because a list would need more than 2^31 - 1 nodes to overflow it.
- SDL (window, surface, event polling, drawing, `SDL_UpdateWindowSurface`, `SDL_Delay`), the floating-point physics and wall bounces, `rand`, `srand` and `time`: these are I/O, floating point and randomness. Whether a quit or escape key event was polled in frame f is the parameter `quit(f)`.
- `object.c` beyond the initial `ttl` of 0: mesh copying and drawing do not touch the list or `ttl`. The header that declares `ttl` is not part of this model; `ttl` is modelled as a natural number, which the `ttl > 0` guard keeps it.
- A stored NULL item: `list_next` cannot tell it from the end of the list. The model's `Next` returns an `Option`, and the animation only stores ball references.
- BouncingBalls.SpawnBalls: does not state which creation attempt produced which listed ball. The balls are new objects told apart only by identity, and `AddLast` appends them in creation order.

# event-emitter, modelled in Dafny

A model of the TypeScript library `event-emitter`, a publish/subscribe
dispatcher. It covers the library's three source files, each kept in its own
imperative form:

- **`EventEmitter`** (src/eventEmitter.ts) keeps one callback registry per
  event name. `on` creates the registry on first use and adds the listener.
  `off` removes one registration of a listener, or drops the whole registry
  when no listener is given. `emit` runs the registry.
- **`CallbackMap`** (src/callbackMap.ts) is the registry of one event.
  - `identifiers` maps an identity key to the instance that owns it and a
    reference count.
  - `data` maps each key to a stack of pending list nodes.
  - `executionList` is a doubly linked list of keys in registration order.
  - `getCallbackId` scans the slots `${text}--0`, `${text}--1`, … of a
    callback's source text. It returns the first slot owned by that very
    instance, or else the first empty slot.
- **`LinkedList`** (src/linkedList.ts) has a blank sentinel `head` and a
  `tail`. `add` links a node after the tail. `removeNode` re-links a node's
  neighbours and writes nothing else.

## How things are represented

- **Callbacks.** A callback is a `Callback(id, text)`: an instance identity
  and what `toString()` returns. JavaScript's `===` on functions is equality
  of the pair.
- **Identity keys.** The key string `${text}--${i}` is the pair
  `Key(text, i)`. The string ends in `--` and a decimal numeral, so distinct
  pairs give distinct strings.
- **List nodes.** Nodes live in an arena: `nodes: map<Handle, Node<T>>`, with
  a `Handle` standing for a node reference. Two ghost fields describe the
  shape:
  - `reach` lists the handles met by following `next` from `head`;
  - `cells` holds the nodes handed out by `add` and not yet passed to
    `removeNode`, with their values.
- **Calling back.** Calling a callback is recorded as an `Invocation` in the
  trace that `Run` and `Emit` return.
- **Ownership.** `EventEmitter` keeps a ghost `Repr` and an `owner` map, so
  that a change to one event's registry provably leaves every other event
  alone.

## Behaviour of the code as written

The model follows the code as written in two places where the code does not
do what its own comments say. Both are proved.

- **Identifier entries are never deleted.** The comment at
  src/callbackMap.ts:82 says an identifier with no references can be removed.
  The guard that follows (src/callbackMap.ts:83) tests the entry itself, not
  its count, so the entry stays at zero references.
  - A later `off` of the same instance finds an empty stack.
  - `pop()` then gives `undefined`, and `removeNode` throws a `TypeError`
    when it destructures it.
  - This is `Outcome.ThrewTypeError`; see `Scenarios.RemoveTwice`.
- **The tail can go stale.** The comment at src/linkedList.ts:26 says the
  tail is the latest element. But `removeNode` never moves `tail`, so
  removing the newest registration leaves `tail` on an unlinked node.
  - Every later `add` to that registry hangs off that node, and `emit` never
    reaches it.
  - `Healthy()` names the state in which `tail` is the last node on the
    chain. `On`, `Off`, `Add` and `Remove` state what happens in both states.
  - See `Scenarios.ListenerAfterRemovingTailIsLost`.

A further plain behaviour: a registry whose every listener has been removed
is kept, and only `off(e)` without a listener deletes it
(src/eventEmitter.ts:24-29).

## Model

| member | source | states |
|---|---|---|
| ListShapes.RenderAppend | src/linkedList.ts:47-49 | the log text of a chain with one more value is the old text followed by `"<v> -> "` |
| ListShapes.AppendKeepsShape | src/linkedList.ts:22-31 | linking a node after the tail keeps the list well formed; it is walked last when the tail was the last node, and unreachable otherwise |
| ListShapes.AppendKeepsList | src/linkedList.ts:22-31 | as above, with the values of the handed-out nodes: the walked values gain `v` at the end exactly when the tail was last |
| ListShapes.UnlinkKeepsShape | src/linkedList.ts:33-41 | unlinking a live node keeps the list well formed; a walked node disappears from its position `i` and nothing else moves; unlinking the tail makes the tail stale, and any other node keeps the tail's status |
| ListShapes.UnlinkKeepsCells | src/linkedList.ts:33-41 | the unlinked node stops being a handed-out node; every other node keeps its value |
| ListShapes.ShapeGivesView | src/linkedList.ts:12-14 | a well-formed list seen through its handed-out nodes: the chain is made of them with rising handles, all lie below the allocator, while the tail is last every one of them is walked, and the walked values are theirs |
| ListShapes.ValuesAgree | src/linkedList.ts:44-49 | every node walked from `head` is a handed-out node, and the values walked are theirs |
| ListShapes.CellValuesDrop | src/linkedList.ts:33-41 | dropping position `i` of the chain drops position `i` of the walked values |
| ListShapes.ChainIncreases | src/linkedList.ts:22-31 | handles increase along the chain, because `add` allocates rising handles and `removeNode` only shortens the chain |
| LinkedLists.LinkedList.constructor | src/linkedList.ts:16-20 | a fresh list is a valueless sentinel that is also the tail; nothing is walked |
| LinkedLists.LinkedList.Add | src/linkedList.ts:22-31 | the new node is the new tail, after the old tail; if the tail was last, the walked values gain `v` at the end; if it was stale, they are unchanged and the tail stays stale |
| LinkedLists.LinkedList.Link | src/linkedList.ts:23-28 | the writes of `add`: a new node after the old tail, with `prev` set to it, becomes the tail |
| LinkedLists.LinkedList.RemoveNode | src/linkedList.ts:33-41 | only the neighbours of `n` are re-linked and `tail` is unchanged; a walked node leaves its position `i` of the values; a node off the chain changes nothing walked; removing the tail makes it stale |
| LinkedLists.LinkedList.Bypass | src/linkedList.ts:34-40 | the writes of `removeNode`: `prev.next = next` and `next.prev = prev`, each only when that neighbour exists |
| LinkedLists.LinkedList.Log | src/linkedList.ts:43-53 | the log is `"HEAD -> "`, then `"<v> -> "` for each value walked from `head`, then `"NULL"` |
| LinkedLists.LinkedList.View | src/linkedList.ts:12-14 | the list seen through its handed-out nodes (as `ShapeGivesView`) |
| CallbackMaps.CallbackIdUnique | src/callbackMap.ts:27-46 | the key `getCallbackId` returns is determined by the identifiers: two lookups of one instance agree |
| CallbackMaps.DistinctInstancesDistinctKeys | src/callbackMap.ts:32-42 | two distinct instances, even with the same source text, never share a registered key |
| CallbackMaps.SlotsBound | src/callbackMap.ts:37-42 | the slot scan cannot pass more keys than the registry holds, so it ends |
| CallbackMaps.OwnersDistinct | src/callbackMap.ts:11-16 | in well-kept identifiers, no instance owns two keys |
| CallbackMaps.OwnedKeyIsCallbackId | src/callbackMap.ts:37-40 | the key an instance owns is the one the lookup returns for it |
| CallbackMaps.FreeSlotIsFirst | src/callbackMap.ts:37-45 | a lookup that finds no owner means no key is owned by that instance, and no slot of its text lies at or above the one returned |
| CallbackMaps.CallbacksOf | src/callbackMap.ts:94-97 | the callbacks the walked keys resolve to: one per key, its owner |
| CallbackMaps.NewestCallback | src/callbackMap.ts:69-77 | the last occurrence of a key among the walked keys is the last call of its owner |
| CallbackMaps.Calls | src/callbackMap.ts:91-101 | the trace of calling each callback in order with the same arguments: one invocation per callback |
| CallbackMaps.CallCountIsKeyCount | src/callbackMap.ts:6-16 | an instance is called by `run` exactly as many times as its key occurs on the list |
| CallbackMaps.CallbacksOfUpdate | src/callbackMap.ts:49-67 | changing the count of a key leaves the resolved callbacks alone; appending the key appends its owner |
| CallbackMaps.CallbacksOfDrop | src/callbackMap.ts:69-80 | dropping position `i` of the keys drops position `i` of their callbacks |
| CallbackMaps.AddKeepsIdentities | src/callbackMap.ts:53-59 | creating an entry at the key the lookup returned keeps the identifiers well kept: slots filled from 0 upwards, each by a distinct instance |
| CallbackMaps.AddKeepsPending | src/callbackMap.ts:61-63 | pushing a new node on its key's stack keeps every stack in push order and every live node on the stack of the key it holds |
| CallbackMaps.AddKeepsRegistry | src/callbackMap.ts:49-67 | `add` keeps the registry's bookkeeping: same keys in `data` and `identifiers`, each count equal to its stack's length |
| CallbackMaps.TopIsNewest | src/callbackMap.ts:74 | the top of a stack is its newest node |
| CallbackMaps.RemoveKeepsPending | src/callbackMap.ts:74-77 | popping a stack and unlinking that node keeps the stacks in agreement with the list |
| CallbackMaps.RemoveKeepsRegistry | src/callbackMap.ts:69-86 | `remove` with a pending node keeps the registry's bookkeeping (count one less, stack one shorter) |
| CallbackMaps.ChainKeysRegistered | src/callbackMap.ts:94-95 | every key on the list has an identifier, so `run` never meets an unknown key |
| CallbackMaps.PoppedIsLastOccurrence | src/callbackMap.ts:74-77 | the popped node is the last node holding its key on the chain |
| CallbackMaps.LastPosition | src/linkedList.ts:33-41 | a walked node is the last node on the chain exactly when it is in the last position |
| CallbackMaps.RemovalInOrder | src/callbackMap.ts:69-86 | on a healthy list, `remove` unlinks the last occurrence of the key, the callbacks lose exactly that position, and the node was the tail exactly when it was last |
| CallbackMaps.CallAlong | src/callbackMap.ts:92-99 | the loop of `run` calls, in order, the owner of each key walked from `head`, all with the given arguments |
| CallbackMaps.CallbackMap.constructor | src/callbackMap.ts:21-25 | a fresh registry is empty, healthy and calls nothing |
| CallbackMaps.CallbackMap.Order | src/callbackMap.ts:92-95 | every key `run` meets is registered |
| CallbackMaps.CallbackMap.Listeners | src/callbackMap.ts:92-97 | one callback per key `run` meets |
| CallbackMaps.CallbackMap.GetCallbackId | src/callbackMap.ts:27-46 | returns the first slot of the callback's text owned by this instance, or the first empty slot, having passed only slots owned by other instances |
| CallbackMaps.CallbackMap.Add | src/callbackMap.ts:49-67 | creates an entry with no reference on first use, pushes the new node and counts one more reference; if healthy, the callback is now called last; if the tail is stale, `run` is unchanged |
| CallbackMaps.CallbackMap.Register | src/callbackMap.ts:61-66 | appends the key to the list and records the node under the key |
| CallbackMaps.CallbackMap.Record | src/callbackMap.ts:53-66 | the registry's writes of `add`, keeping its bookkeeping |
| CallbackMaps.CallbackMap.Remove | src/callbackMap.ts:69-88 | an unknown instance changes nothing; an instance with an empty stack throws a `TypeError` and changes nothing; otherwise the stack is popped and the count goes down by one, and on a healthy list the listener's last call is dropped, leaving the list healthy exactly when that call was not the last |
| CallbackMaps.CallbackMap.Deregister | src/callbackMap.ts:73-86 | `remove` once the key is known, with the same cases |
| CallbackMaps.CallbackMap.RemovedAt | src/callbackMap.ts:74-80 | the healthy case of `remove`, stated on the registry before and after |
| CallbackMaps.CallbackMap.Unregister | src/callbackMap.ts:74-85 | pops the newest node of the key, unlinks it and counts one reference less; the entry stays even at zero |
| CallbackMaps.CallbackMap.Release | src/callbackMap.ts:74-80 | the registry's writes of `remove`, keeping its bookkeeping |
| CallbackMaps.CallbackMap.Untouched | src/callbackMap.ts:69-88 | a registry nothing wrote to calls the same callbacks and keeps its tail status |
| CallbackMaps.CallbackMap.Walk | src/callbackMap.ts:92-97 | position `j` of the walk holds a key owned by the `j`th listener |
| CallbackMaps.CallbackMap.Run | src/callbackMap.ts:91-101 | calls exactly the listeners, in registration order, each with the given arguments |
| EventEmitters.EventEmitter.KeptAcross | src/eventEmitter.ts:5 | a step that did not touch a name's registry leaves what `emit` does for that name unchanged |
| EventEmitters.EventEmitter.constructor | src/eventEmitter.ts:7-9 | a fresh emitter has no registry: every name calls nothing |
| EventEmitters.EventEmitter.On | src/eventEmitter.ts:11-17 | the name now has a registry; the listener's key and count are updated as `add` does; if healthy, the listener is called last from now on, otherwise `emit` is unchanged; every other name is untouched |
| EventEmitters.EventEmitter.Registry | src/eventEmitter.ts:12-14 | the name's registry, created empty only when missing; no name's behaviour changes |
| EventEmitters.EventEmitter.Create | src/eventEmitter.ts:13 | a fresh, empty registry for a name that had none; no other name changes |
| EventEmitters.EventEmitter.Created | src/eventEmitter.ts:13 | adding an empty registry keeps every name's behaviour |
| EventEmitters.EventEmitter.AddTo | src/eventEmitter.ts:16 | `add` on the name's registry, with every other name untouched |
| EventEmitters.EventEmitter.Off | src/eventEmitter.ts:19-30 | no registry: nothing happens; no listener: the name's registry is dropped and it calls nothing; otherwise a `TypeError` exactly when the instance's key is registered with zero references, no change when it has none pending, and else the listener's last call is dropped (healthy case) or the tail stays stale; every other name is untouched |
| EventEmitters.EventEmitter.Delete | src/eventEmitter.ts:25 | the name loses its registry and calls nothing; others are untouched |
| EventEmitters.EventEmitter.RemoveFrom | src/eventEmitter.ts:29 | `remove` on the name's registry, with the cases of `Off` and every other name untouched |
| EventEmitters.EventEmitter.Updated | src/eventEmitter.ts:16 | a step that wrote only to one name's registry leaves every other name unchanged |
| EventEmitters.EventEmitter.Emit | src/eventEmitter.ts:32-36 | calls the name's listeners in order with the arguments; nothing for a name with no registry |
| Scenarios.Listening | src/eventEmitter.ts:11-17 | after one `on(e, f)`, `f` is the only listener of `e`, in slot 0 of its text, and no other name has one |
| Scenarios.ListeningTwice | src/eventEmitter.ts:11-17 | after `on(e, f1)` and `on(e, f2)`, the listeners are `[f1, f2]` |
| Scenarios.ListeningToTwo | src/eventEmitter.ts:11-17 | after `on(e, f1)` and `on(other, f2)`, each name has its own listener |
| Scenarios.ListenedAndRemoved | src/eventEmitter.ts:19-30 | after `on(e, f)` and `off(e, f)`, `e` calls nothing, its tail is stale and the entry of `f` stays with no reference |
| Scenarios.ListenThenEmit | test/eventEmitter.spec.ts:21-40 | a listener is called once with the arguments of `emit`, none included |
| Scenarios.EmitTwice | test/eventEmitter.spec.ts:42-54 | two emits call the listener twice, each time with that emit's arguments |
| Scenarios.ListenOtherEvent | test/eventEmitter.spec.ts:56-63 | a listener of another name is not called |
| Scenarios.ListenTwoCallbacks | test/eventEmitter.spec.ts:65-78 | two listeners are both called, in the order they were added |
| Scenarios.ListenSameCallbackTwice | test/eventEmitter.spec.ts:80-91 | the same listener added twice is called twice |
| Scenarios.RemoveUnlistened | test/eventEmitter.spec.ts:95-101 | removing from a name nobody listens to does not throw |
| Scenarios.ListenThenRemove | test/eventEmitter.spec.ts:103-112 | a listener added and removed is not called |
| Scenarios.RemoveOneOfTwo | test/eventEmitter.spec.ts:114-127 | removing the first of two listeners leaves only the second called |
| Scenarios.ListenTwiceRemoveOnce | test/eventEmitter.spec.ts:129-140 | a listener added twice and removed once is called once |
| Scenarios.RemoveFromOneEvent | test/eventEmitter.spec.ts:142-155 | removing a listener of one name leaves another name's listener called |
| Scenarios.RemoveWholeEvent | src/eventEmitter.ts:24-27 | `off(e)` without a listener leaves `e` calling nothing |
| Scenarios.ListenerAfterRemovingTailIsLost | src/linkedList.ts:33-41 | after `on(e, f)`, `off(e, f)` and `on(e, g)`, `emit(e)` calls nothing: `g` hangs off the unlinked tail |
| Scenarios.RemoveTwice | src/callbackMap.ts:73-85 | `on(e, f)` then two `off(e, f)`: the second throws a `TypeError` |

## Left out

- `CallbackMap.log` (src/callbackMap.ts:103-109) writes to the console. It is
  not modelled. The list's own `log` is modelled as `LinkedList.Log`.
- Callback bodies are not modelled; a call is only recorded in the trace. Out
  of scope with them:
  - what callbacks do;
  - exceptions a callback throws;
  - a callback that calls `on` or `off` while `emit` runs.
- The arguments of `emit` (`any[]`) are modelled as a sequence of numbers and
  strings.
- `fn` from src/types.ts is modelled as `Callback`. types.ts is not part of
  this model.
- `events` and `identifiers` are modelled as maps. In JavaScript they are
  plain objects with a prototype, so `events["constructor"]` or
  `events["toString"]` is already set. An event name that coincides with an
  inherited property makes `on`, `off` and `emit` misbehave, and that is not
  modelled. Identity keys end in `--` and a digit and cannot collide this way.
- `Release`: `remove` pops the stack before unlinking the node and
  decrements the count after. The model makes both registry writes together,
  because nothing reads the registry in between.
- `LinkedLists.LinkedList.RemoveNode`: requires a node that is still linked
  in. In the source, a second removal of the same node would re-link its old
  neighbours. `CallbackMap` pops each node off its stack as it removes it, so
  it never passes one twice. This is the only caller.
- `EventEmitters.EventEmitter.Off`: on a registry whose tail is already
  stale, it states only that the tail stays stale and how the counts change.
  It does not say which walked call, if any, disappears. The removed node may
  be on the chain or already cut off from it.
- `CallbackMaps.CallbackMap.Remove`: the same on a stale list. So are
  `CallbackMaps.CallbackMap.Deregister` and
  `EventEmitters.EventEmitter.RemoveFrom`, which it is built from and which
  build on it.
- The test suite also runs against Node's own `EventEmitter` and has timing
  tests (test/eventEmitter.spec.ts:158-199). Neither is modelled.

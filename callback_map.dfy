/**
 * The callback registry of src/callbackMap.ts.
 *
 * A callback is an instance identity paired with the text `toString()` gives
 * it; JavaScript's `===` on functions is equality of the whole pair. The
 * identity key `${text}--${i}` is kept as the pair (text, slot): the suffix is
 * `--` and a decimal numeral, so distinct pairs give distinct strings.
 * An invocation of a callback is recorded as an entry of a trace.
 */
module CallbackMaps {
  import opened Wrappers
  import opened ListShapes
  import opened LinkedLists

  /** A value passed to `emit` and on to every callback. */
  datatype Value = Num(n: int) | Str(s: string)

  type Args = seq<Value>

  /** A function instance: `id` is its identity, `text` what `toString()` returns. */
  datatype Callback = Callback(id: nat, text: string)

  /** The identity key `${text}--${slot}`. */
  datatype Key = Key(text: string, slot: nat)

  /** An entry of `identifiers`: the instance owning a key and its reference count. */
  datatype Identifier = Identifier(callback: Callback, references: int)

  /** One call `callback(...args)` made by `run`. */
  datatype Invocation = Invocation(callback: Callback, args: Args)

  /** How a call ended: normally, or with the `TypeError` of destructuring `undefined`. */
  datatype Outcome = Returned | ThrewTypeError

  /**
   * `k` is the key `getCallbackId(cb)` returns against `ids`: a slot of the
   * callback's text such that every lower slot holds another instance, and
   * which is either empty or holds `cb` itself.
   */
  ghost predicate IsCallbackId(ids: map<Key, Identifier>, cb: Callback, k: Key)
  {
    k.text == cb.text &&
    (forall j :: 0 <= j < k.slot ==> Key(cb.text, j) in ids && ids[Key(cb.text, j)].callback != cb) &&
    (k in ids ==> ids[k].callback == cb)
  }

  /** The key of a callback is determined by the identifiers: repeated lookups agree. */
  lemma CallbackIdUnique(ids: map<Key, Identifier>, cb: Callback, k1: Key, k2: Key)
    requires IsCallbackId(ids, cb, k1) && IsCallbackId(ids, cb, k2)
    ensures k1 == k2
  {
    assert k1 == Key(cb.text, k1.slot) && k2 == Key(cb.text, k2.slot);
  }

  /** Distinct instances never share a key once both own one, even when their text is the same. */
  lemma DistinctInstancesDistinctKeys(ids: map<Key, Identifier>, f: Callback, g: Callback, kf: Key, kg: Key)
    requires f != g && IsCallbackId(ids, f, kf) && IsCallbackId(ids, g, kg)
    requires kf in ids && kg in ids
    ensures kf != kg
  {
  }

  /** `i` distinct slots of one text in a finite key set: there are at least `i` keys. */
  lemma {:induction false} SlotsBound(keys: set<Key>, t: string, i: nat)
    requires forall j :: 0 <= j < i ==> Key(t, j) in keys
    ensures i <= |keys|
  {
    if i > 0 {
      var rest := keys - {Key(t, i - 1)};
      assert forall j :: 0 <= j < i - 1 ==> Key(t, j) in rest;
      SlotsBound(rest, t, i - 1);
    }
  }

  /**
   * The identifiers the registry keeps: each key holds an instance with the
   * key's text, and the slots of a text are filled from 0 upwards with no
   * gap, each by an instance other than those of the slots above it.
   */
  ghost predicate IdentitiesOk(ids: map<Key, Identifier>)
  {
    (forall k :: k in ids ==> ids[k].callback.text == k.text) &&
    (forall k, j {:trigger Key(k.text, j), ids[k]} :: k in ids && 0 <= j < k.slot ==>
      Key(k.text, j) in ids && ids[Key(k.text, j)].callback != ids[k].callback)
  }

  /** No instance owns two keys. */
  lemma OwnersDistinct(ids: map<Key, Identifier>, k1: Key, k2: Key)
    requires IdentitiesOk(ids) && k1 in ids && k2 in ids && ids[k1].callback == ids[k2].callback
    ensures k1 == k2
  {
    assert k1 == Key(k1.text, k1.slot) && k2 == Key(k2.text, k2.slot);
    assert ids[k1].callback.text == k1.text && ids[k2].callback.text == k2.text;
  }

  /** In well-kept identifiers, the key an instance owns is the one the lookup finds. */
  lemma OwnedKeyIsCallbackId(ids: map<Key, Identifier>, cb: Callback, k: Key)
    requires IdentitiesOk(ids) && k in ids && ids[k].callback == cb
    ensures IsCallbackId(ids, cb, k)
  {
    forall j | 0 <= j < k.slot
      ensures Key(cb.text, j) in ids && ids[Key(cb.text, j)].callback != cb
    {
      assert ids[k].callback.text == k.text;
      assert Key(k.text, j) in ids;
    }
  }

  /** A lookup that finds no owner lands on the first empty slot, with no slot of the text above it. */
  lemma FreeSlotIsFirst(ids: map<Key, Identifier>, cb: Callback, k: Key)
    requires IdentitiesOk(ids) && IsCallbackId(ids, cb, k) && k !in ids
    ensures forall k' :: k' in ids ==> ids[k'].callback != cb
    ensures forall j :: k.slot <= j ==> Key(cb.text, j) !in ids
  {
    assert k == Key(cb.text, k.slot);
    forall j | k.slot <= j ensures Key(cb.text, j) !in ids {
      var kj := Key(cb.text, j);
      assert kj in ids ==> Key(kj.text, k.slot) in ids;
    }
    forall k' | k' in ids ensures ids[k'].callback != cb {
      assert k' == Key(k'.text, k'.slot);
      assert ids[k'].callback == cb ==> k'.text == cb.text;
    }
  }

  /**
   * The pending stacks (`data`) against the execution list's live nodes
   * (`cells`): every handle on the stack of `k` is a live node holding `k`;
   * a stack lists its handles in the order they were pushed (handles grow
   * with allocation); every live node is on the stack of the key it holds.
   */
  ghost predicate PendingOk(data: map<Key, seq<Handle>>, cells: map<Handle, Key>)
  {
    (forall k, i {:trigger data[k][i]} :: k in data && 0 <= i < |data[k]| ==>
      data[k][i] in cells && cells[data[k][i]] == k) &&
    (forall k, i, j :: k in data && 0 <= i < j < |data[k]| ==> Before(data[k], i, j)) &&
    (forall h :: h in cells ==> cells[h] in data && h in data[cells[h]])
  }

  /**
   * The registry's bookkeeping: `data` and `identifiers` have the same keys,
   * each reference count is the length of its key's stack, the identifiers
   * are well kept and the stacks agree with the list.
   */
  ghost predicate RegistryOk(data: map<Key, seq<Handle>>, ids: map<Key, Identifier>, cells: map<Handle, Key>)
  {
    data.Keys == ids.Keys &&
    (forall k :: k in ids ==> ids[k].references == |data[k]|) &&
    IdentitiesOk(ids) &&
    PendingOk(data, cells)
  }

  /** Position `i` of `s` holds `x`, and no later position does: the newest occurrence of `x`. */
  ghost predicate LastAt<X>(s: seq<X>, i: int, x: X)
  {
    0 <= i < |s| && s[i] == x && forall j :: i < j < |s| ==> s[j] != x
  }

  /** The callbacks owning the given keys, in order. */
  function CallbacksOf(ids: map<Key, Identifier>, keys: seq<Key>): (cbs: seq<Callback>)
    requires forall i :: 0 <= i < |keys| ==> keys[i] in ids
    ensures |cbs| == |keys|
    ensures forall i :: 0 <= i < |keys| ==> cbs[i] == ids[keys[i]].callback
  {
    seq(|keys|, i requires 0 <= i < |keys| => ids[keys[i]].callback)
  }

  /** Each instance owns one key, so the newest occurrence of a key is the newest call of its owner. */
  lemma NewestCallback(ids: map<Key, Identifier>, keys: seq<Key>, i: nat, k: Key)
    requires IdentitiesOk(ids) && forall j :: 0 <= j < |keys| ==> keys[j] in ids
    requires LastAt(keys, i, k)
    ensures LastAt(CallbacksOf(ids, keys), i, ids[k].callback)
  {
    var cbs := CallbacksOf(ids, keys);
    forall j | i < j < |keys|
      ensures cbs[j] != ids[k].callback
    {
      if cbs[j] == ids[k].callback {
        OwnersDistinct(ids, keys[j], k);
      }
    }
  }

  /** The trace of calling each of `cbs` in order, all with `args`. */
  function Calls(cbs: seq<Callback>, args: Args): (trace: seq<Invocation>)
    ensures |trace| == |cbs|
    ensures forall i :: 0 <= i < |cbs| ==> trace[i] == Invocation(cbs[i], args)
  {
    seq(|cbs|, i requires 0 <= i < |cbs| => Invocation(cbs[i], args))
  }

  /**
   * When no instance owns two keys, an instance is called exactly as many
   * times as its key occurs among the keys walked.
   */
  lemma {:induction false} CallCountIsKeyCount(ids: map<Key, Identifier>, keys: seq<Key>, k: Key)
    requires IdentitiesOk(ids) && k in ids
    requires forall i :: 0 <= i < |keys| ==> keys[i] in ids
    ensures multiset(CallbacksOf(ids, keys))[ids[k].callback] == multiset(keys)[k]
  {
    if keys != [] {
      var last := |keys| - 1;
      CallCountIsKeyCount(ids, keys[..last], k);
      if ids[keys[last]].callback == ids[k].callback {
        OwnersDistinct(ids, keys[last], k);
      }
      assert keys == keys[..last] + [keys[last]];
      assert CallbacksOf(ids, keys) == CallbacksOf(ids, keys[..last]) + [ids[keys[last]].callback];
    }
  }

  /** Renaming nothing the walk meets: callbacks of keys whose owner did not change stay the same. */
  lemma CallbacksOfUpdate(ids: map<Key, Identifier>, keys: seq<Key>, k: Key, e: Identifier)
    requires forall i :: 0 <= i < |keys| ==> keys[i] in ids
    requires k in ids ==> ids[k].callback == e.callback
    ensures CallbacksOf(ids[k := e], keys) == CallbacksOf(ids, keys)
    ensures CallbacksOf(ids[k := e], keys + [k]) == CallbacksOf(ids, keys) + [e.callback]
  {
  }

  /** Dropping position `i` of the keys drops position `i` of their callbacks. */
  lemma CallbacksOfDrop(ids: map<Key, Identifier>, ids': map<Key, Identifier>, keys: seq<Key>, i: nat)
    requires i < |keys|
    requires forall j :: 0 <= j < |keys| ==> keys[j] in ids && keys[j] in ids' && ids'[keys[j]].callback == ids[keys[j]].callback
    ensures CallbacksOf(ids', Drop(keys, i)) == Drop(CallbacksOf(ids, keys), i)
  {
    var rest := Drop(keys, i);
    assert forall j :: 0 <= j < |rest| ==> rest[j] == if j < i then keys[j] else keys[j + 1];
  }

  // `add` and `remove` keep the bookkeeping, stated on the fields' values.

  /** `identifiers` after `add(cb)` with key `k`: a new entry on first use, then one more reference. */
  function AddedIdentifiers(ids: map<Key, Identifier>, cb: Callback, k: Key): map<Key, Identifier>
  {
    var entry := if k in ids then ids[k] else Identifier(cb, 0);
    ids[k := entry.(references := entry.references + 1)]
  }

  /** `data` after `add(cb)` with key `k` pushed the node `h`: an empty stack on first use, then `h`. */
  function AddedPending(data: map<Key, seq<Handle>>, k: Key, h: Handle): map<Key, seq<Handle>>
  {
    var stack := if k in data then data[k] else [];
    data[k := stack + [h]]
  }

  lemma AddKeepsIdentities(ids: map<Key, Identifier>, cb: Callback, k: Key)
    requires IdentitiesOk(ids) && IsCallbackId(ids, cb, k)
    ensures IdentitiesOk(AddedIdentifiers(ids, cb, k))
  {
    if k !in ids {
      FreeSlotIsFirst(ids, cb, k);
    }
  }

  lemma AddKeepsPending(data: map<Key, seq<Handle>>, cells: map<Handle, Key>, k: Key, h: Handle)
    requires PendingOk(data, cells)
    requires forall x :: x in cells ==> x < h
    ensures PendingOk(AddedPending(data, k, h), cells[h := k])
  {
    var data' := AddedPending(data, k, h);
    var cells' := cells[h := k];
    forall k', i | k' in data' && 0 <= i < |data'[k']|
      ensures data'[k'][i] in cells' && cells'[data'[k'][i]] == k'
    {
      if k' != k || i < |data'[k']| - 1 {
        assert data'[k'][i] == data[k'][i];
      }
    }
    forall k', i, j | k' in data' && 0 <= i < j < |data'[k']|
      ensures Before(data'[k'], i, j)
    {
      assert data'[k'][i] == data[k'][i];
      if k' != k || j < |data'[k']| - 1 {
        assert data'[k'][j] == data[k'][j] && Before(data[k'], i, j);
      }
    }
    forall x | x in cells' ensures cells'[x] in data' && x in data'[cells'[x]] {
      if x != h {
        assert x in data[cells[x]];
        assert data[cells[x]] <= data'[cells[x]];
      } else {
        assert data'[k][|data'[k]| - 1] == h;
      }
    }
  }

  /** `add` keeps the registry's bookkeeping. */
  lemma AddKeepsRegistry(data: map<Key, seq<Handle>>, ids: map<Key, Identifier>, cells: map<Handle, Key>,
                         cb: Callback, k: Key, h: Handle)
    requires RegistryOk(data, ids, cells) && IsCallbackId(ids, cb, k)
    requires forall x :: x in cells ==> x < h
    ensures RegistryOk(AddedPending(data, k, h), AddedIdentifiers(ids, cb, k), cells[h := k])
  {
    AddKeepsIdentities(ids, cb, k);
    AddKeepsPending(data, cells, k, h);
  }

  /** The top of a stack is its newest handle: no handle below it is larger. */
  lemma TopIsNewest(data: map<Key, seq<Handle>>, cells: map<Handle, Key>, k: Key)
    requires PendingOk(data, cells) && k in data && data[k] != []
    ensures forall p :: 0 <= p < |data[k]| ==> data[k][p] <= data[k][|data[k]| - 1]
  {
    var last := |data[k]| - 1;
    forall p | 0 <= p < last ensures data[k][p] < data[k][last] {
      assert Before(data[k], p, last);
    }
  }

  lemma RemoveKeepsPending(data: map<Key, seq<Handle>>, cells: map<Handle, Key>, k: Key)
    requires PendingOk(data, cells) && k in data && data[k] != []
    ensures var n := data[k][|data[k]| - 1];
            n in cells && PendingOk(data[k := data[k][..|data[k]| - 1]], cells - {n})
  {
    var last := |data[k]| - 1;
    var n := data[k][last];
    var data' := data[k := data[k][..last]];
    var cells' := cells - {n};
    TopIsNewest(data, cells, k);
    forall k', i | k' in data' && 0 <= i < |data'[k']|
      ensures data'[k'][i] in cells' && cells'[data'[k'][i]] == k'
    {
      assert data'[k'][i] == data[k'][i];
      if k' == k {
        assert Before(data[k], i, last);
      }
    }
    forall k', i, j | k' in data' && 0 <= i < j < |data'[k']|
      ensures Before(data'[k'], i, j)
    {
      assert data'[k'][i] == data[k'][i] && data'[k'][j] == data[k'][j] && Before(data[k'], i, j);
    }
    forall x | x in cells' ensures cells'[x] in data' && x in data'[cells'[x]] {
      assert x in data[cells[x]];
      if cells[x] == k {
        var p :| 0 <= p < |data[k]| && data[k][p] == x;
        assert data'[k][p] == x;
      }
    }
  }

  /** `remove`, when the key has a pending node, keeps the registry's bookkeeping. */
  lemma RemoveKeepsRegistry(data: map<Key, seq<Handle>>, ids: map<Key, Identifier>, cells: map<Handle, Key>, k: Key)
    requires RegistryOk(data, ids, cells) && k in data && data[k] != []
    ensures var n := data[k][|data[k]| - 1];
            n in cells &&
            RegistryOk(data[k := data[k][..|data[k]| - 1]], ids[k := ids[k].(references := ids[k].references - 1)],
                       cells - {n})
  {
    RemoveKeepsPending(data, cells, k);
    var ids' := ids[k := ids[k].(references := ids[k].references - 1)];
    assert forall k' :: k' in ids' ==> ids'[k'].callback == ids[k'].callback;
  }

  /** Every key on the chain has an identifier. */
  lemma ChainKeysRegistered(data: map<Key, seq<Handle>>, ids: map<Key, Identifier>, cells: map<Handle, Key>,
                            reach: seq<Handle>)
    requires RegistryOk(data, ids, cells)
    requires forall i :: 0 <= i < |reach| ==> reach[i] in cells
    ensures forall i :: 0 <= i < |reach| ==> CellValues(cells, reach)[i] in ids
  {
  }

  /**
   * The node `remove` pops is the newest registration of its key, so on the
   * chain, where handles increase, no later node holds that key: `remove`
   * drops the last occurrence of the key.
   */
  lemma PoppedIsLastOccurrence(data: map<Key, seq<Handle>>, cells: map<Handle, Key>, reach: seq<Handle>, k: Key, i: nat)
    requires PendingOk(data, cells) && k in data && data[k] != []
    requires forall j :: 0 <= j < |reach| ==> reach[j] in cells
    requires forall a, b :: 0 <= a < b < |reach| ==> Before(reach, a, b)
    requires i < |reach| && reach[i] == data[k][|data[k]| - 1]
    ensures forall j :: i < j < |reach| ==> cells[reach[j]] != k
  {
    TopIsNewest(data, cells, k);
    forall j | i < j < |reach| ensures cells[reach[j]] != k {
      assert Before(reach, i, j);
      assert reach[j] in data[cells[reach[j]]];
    }
  }

  /** On a chain with increasing handles, position `i` holds the last node exactly when it is the last position. */
  lemma LastPosition(head: Handle, reach: seq<Handle>, i: nat)
    requires forall a, b :: 0 <= a < b < |reach| ==> Before(reach, a, b)
    requires i < |reach|
    ensures reach[i] == LastOf(head, reach) <==> i == |reach| - 1
  {
    if i < |reach| - 1 {
      assert Before(reach, i, |reach| - 1);
    }
  }

  /**
   * On a healthy list, `remove` unlinks the last occurrence of the key on the
   * chain, at the position `i` where the list found the popped node; it was
   * the tail exactly when it was last, and the callbacks lose that one position.
   */
  lemma RemovalInOrder(head: Handle, tail: Handle, nextHandle: Handle, reach: seq<Handle>, cells: map<Handle, Key>,
                       data: map<Key, seq<Handle>>, ids: map<Key, Identifier>, ids': map<Key, Identifier>, k: Key, i: nat)
    requires ViewOk(head, tail, nextHandle, reach, cells) && tail == LastOf(head, reach)
    requires RegistryOk(data, ids, cells) && k in data && data[k] != []
    requires data[k][|data[k]| - 1] in reach ==> i < |reach| && reach[i] == data[k][|data[k]| - 1]
    requires ids' == ids[k := ids[k].(references := ids[k].references - 1)]
    ensures i < |reach| && reach[i] == data[k][|data[k]| - 1]
    ensures forall j :: 0 <= j < |reach| ==> CellValues(cells, reach)[j] in ids && CellValues(cells, reach)[j] in ids'
    ensures LastAt(CellValues(cells, reach), i, k)
    ensures reach[i] == tail <==> i == |reach| - 1
    ensures CallbacksOf(ids', Drop(CellValues(cells, reach), i)) == Drop(CallbacksOf(ids, CellValues(cells, reach)), i)
    ensures forall j :: 0 <= j < |Drop(reach, i)| ==> Drop(reach, i)[j] in cells - {reach[i]}
    ensures CellValues(cells - {reach[i]}, Drop(reach, i)) == Drop(CellValues(cells, reach), i)
  {
    var keys := CellValues(cells, reach);
    ChainKeysRegistered(data, ids, cells, reach);
    PoppedIsLastOccurrence(data, cells, reach, k, i);
    LastPosition(head, reach, i);
    CallbacksOfDrop(ids, ids', keys, i);
    CellValuesDrop(head, tail, nextHandle, reach, cells, i);
  }

  /** The node `h` holds a key owned by `cb`. */
  ghost predicate Owns(nodes: map<Handle, Node<Key>>, ids: map<Key, Identifier>, h: Handle, cb: Callback)
  {
    h in nodes && nodes[h].value.Some? && nodes[h].value.value in ids && ids[nodes[h].value.value].callback == cb
  }

  /**
   * The loop of `run`: follows `next` from `head` and calls the owner of the
   * key held by each node met, all with `args`.
   */
  method CallAlong(nodes: map<Handle, Node<Key>>, head: Handle, ids: map<Key, Identifier>, args: Args,
                   ghost reach: seq<Handle>, ghost removed: set<Handle>, ghost cbs: seq<Callback>)
    returns (trace: seq<Invocation>)
    requires ChainOk(nodes, head, reach, removed) && |cbs| == |reach|
    requires forall j :: 0 <= j < |reach| ==> Owns(nodes, ids, reach[j], cbs[j])
    ensures trace == Calls(cbs, args)
  {
    var node := head;
    trace := [];
    ghost var i := 0;
    ChainStep(nodes, head, reach, removed, i);
    while nodes[node].next.To?
      invariant 0 <= i <= |reach| && node in nodes
      invariant node == if i == 0 then head else reach[i - 1]
      invariant nodes[node].next == if i == |reach| then Nil else To(reach[i])
      invariant trace == Calls(cbs[..i], args)
      decreases |reach| - i
    {
      node := nodes[node].next.handle;
      assert Owns(nodes, ids, reach[i], cbs[i]);
      var identifier := ids[nodes[node].value.value];
      trace := trace + [Invocation(identifier.callback, args)];
      i := i + 1;
      ChainStep(nodes, head, reach, removed, i);
    }
    assert cbs[..i] == cbs;
  }

  /** The registry of one event: src/callbackMap.ts. */
  class CallbackMap {
    /** The pending node handles of each key, newest last (`data`). */
    var data: map<Key, seq<Handle>>
    /** The owning instance and reference count of each key (`identifiers`). */
    var identifiers: map<Key, Identifier>
    const executionList: LinkedList<Key>

    ghost predicate Valid()
      reads this, executionList
    {
      executionList.Valid() && RegistryOk(data, identifiers, executionList.cells)
    }

    /** The keys `run` meets, in order; each of them is registered. */
    ghost function Order(): (keys: seq<Key>)
      reads this, executionList
      requires Valid()
      ensures forall j :: 0 <= j < |keys| ==> keys[j] in identifiers
    {
      executionList.View();
      ChainKeysRegistered(data, identifiers, executionList.cells, executionList.reach);
      executionList.Values()
    }

    /** The callbacks `run` calls, in order. */
    ghost function Listeners(): (cbs: seq<Callback>)
      reads this, executionList
      requires Valid()
      ensures |cbs| == |Order()|
    {
      CallbacksOf(identifiers, Order())
    }

    /** The list's `tail` is the last node reachable from `head`, so every registration is walked. */
    ghost predicate Healthy()
      reads this, executionList
    {
      executionList.TailIsLast()
    }

    constructor ()
      ensures Valid() && fresh(executionList)
      ensures data == map[] && identifiers == map[]
      ensures Order() == [] && Listeners() == [] && Healthy()
    {
      data := map[];
      identifiers := map[];
      executionList := new LinkedList<Key>();
    }

    /**
     * Tries the slots of the callback's text from 0 upwards: returns the
     * first one holding this very instance, or else the first empty one.
     */
    method GetCallbackId(cb: Callback) returns (k: Key)
      ensures IsCallbackId(identifiers, cb, k)
    {
      var i: nat := 0;
      while Key(cb.text, i) in identifiers
        invariant i <= |identifiers|
        invariant forall j :: 0 <= j < i ==> Key(cb.text, j) in identifiers && identifiers[Key(cb.text, j)].callback != cb
        decreases |identifiers| - i
      {
        if cb == identifiers[Key(cb.text, i)].callback {
          return Key(cb.text, i);
        }
        i := i + 1;
        SlotsBound(identifiers.Keys, cb.text, i);
      }
      return Key(cb.text, i);
    }

    /**
     * Registers `cb` once more: appends its key to the execution list and
     * pushes the new node on the key's stack, creating the entry on first use.
     */
    method Add(cb: Callback) returns (ghost k: Key)
      requires Valid()
      modifies this, executionList
      ensures Valid()
      ensures IsCallbackId(old(identifiers), cb, k)
      ensures identifiers == AddedIdentifiers(old(identifiers), cb, k)
      ensures data == AddedPending(old(data), k, old(executionList.nextHandle))
      ensures executionList.tail == old(executionList.nextHandle)
      ensures old(Healthy()) ==> Healthy() && Order() == old(Order()) + [k] && Listeners() == old(Listeners()) + [cb]
      ensures !old(Healthy()) ==> !Healthy() && Order() == old(Order()) && Listeners() == old(Listeners())
    {
      var key := GetCallbackId(cb);
      k := key;
      executionList.View();
      ChainKeysRegistered(data, identifiers, executionList.cells, executionList.reach);
      CallbacksOfUpdate(identifiers, Order(), key, AddedIdentifiers(identifiers, cb, key)[key]);
      var node := Register(cb, key);
    }

    /** Appends a node holding `k` to the list and pushes it on the stack of `k`, creating the entry on first use. */
    method Register(cb: Callback, k: Key) returns (node: Handle)
      requires Valid() && IsCallbackId(identifiers, cb, k)
      modifies this, executionList
      ensures Valid()
      ensures identifiers == AddedIdentifiers(old(identifiers), cb, k)
      ensures data == AddedPending(old(data), k, old(executionList.nextHandle))
      ensures node == old(executionList.nextHandle) && executionList.tail == node
      ensures old(Healthy()) ==> Healthy() && Order() == old(Order()) + [k]
      ensures !old(Healthy()) ==> !Healthy() && Order() == old(Order())
    {
      executionList.Fresh();
      ghost var cells := executionList.cells;
      node := executionList.Add(k);
      Record(cb, k, node, cells);
    }

    /**
     * The registry's side of `add`: on first use of `k` an empty stack and an
     * entry owned by `cb` with no reference; then `node` pushed on the stack
     * of `k` and one more reference counted.
     */
    method Record(cb: Callback, k: Key, node: Handle, ghost cells: map<Handle, Key>)
      requires RegistryOk(data, identifiers, cells) && IsCallbackId(identifiers, cb, k)
      requires forall x :: x in cells ==> x < node
      modifies this
      ensures RegistryOk(data, identifiers, cells[node := k])
      ensures identifiers == AddedIdentifiers(old(identifiers), cb, k)
      ensures data == AddedPending(old(data), k, node)
    {
      AddKeepsRegistry(data, identifiers, cells, cb, k, node);
      // On first use, an empty stack and an entry owned by `cb` with no reference.
      var stack, entry := [], Identifier(cb, 0);
      if k in data {
        stack, entry := data[k], identifiers[k];
      }
      data := data[k := stack + [node]];
      identifiers := identifiers[k := entry.(references := entry.references + 1)];
    }

    /**
     * Deregisters `cb` once: pops the newest node of its key and unlinks it.
     * An instance never added is a no-op; an instance whose stack is already
     * empty makes `removeNode(undefined)` throw, with nothing changed.
     */
    method Remove(cb: Callback) returns (outcome: Outcome, ghost k: Key, ghost i: nat)
      requires Valid()
      modifies this, executionList
      ensures Valid()
      ensures IsCallbackId(old(identifiers), cb, k)
      ensures outcome == ThrewTypeError <==> k in old(data) && old(data[k]) == []
      ensures k !in old(data) || old(data[k]) == [] ==> unchanged(this, executionList)
      ensures k in old(data) && old(data[k]) != [] ==>
        data == old(data)[k := old(data[k])[..|old(data[k])| - 1]] &&
        identifiers == old(identifiers)[k := old(identifiers[k]).(references := old(identifiers[k].references) - 1)] &&
        executionList.tail == old(executionList.tail) &&
        (!old(Healthy()) ==> !Healthy())
      ensures k in old(data) && old(data[k]) != [] && old(Healthy()) ==>
        LastAt(old(Order()), i, k) && LastAt(old(Listeners()), i, cb) &&
        Order() == Drop(old(Order()), i) && Listeners() == Drop(old(Listeners()), i) &&
        (Healthy() <==> i < |old(Order())| - 1)
    {
      var key := GetCallbackId(cb);
      k := key;
      ghost var ids, order, healthy := identifiers, Order(), Healthy();
      outcome, i := Deregister(key);
      if k in old(data) && old(data[k]) != [] && healthy {
        NewestCallback(ids, order, i, k);
      }
    }

    /** `remove` once the key of the callback is known. */
    method Deregister(k: Key) returns (outcome: Outcome, ghost i: nat)
      requires Valid()
      modifies this, executionList
      ensures Valid()
      ensures outcome == ThrewTypeError <==> k in old(data) && old(data[k]) == []
      ensures k !in old(data) || old(data[k]) == [] ==> unchanged(this, executionList)
      ensures k in old(data) && old(data[k]) != [] ==>
        data == old(data)[k := old(data[k])[..|old(data[k])| - 1]] &&
        identifiers == old(identifiers)[k := old(identifiers[k]).(references := old(identifiers[k].references) - 1)] &&
        executionList.tail == old(executionList.tail) &&
        (!old(Healthy()) ==> !Healthy())
      ensures k in old(data) && old(data[k]) != [] && old(Healthy()) ==>
        LastAt(old(Order()), i, k) && old(Listeners())[i] == old(identifiers[k].callback) &&
        Order() == Drop(old(Order()), i) && Listeners() == Drop(old(Listeners()), i) &&
        (Healthy() <==> i < |old(Order())| - 1)
    {
      i, outcome := 0, Returned;
      if k in data {
        if data[k] == [] {
          // `pop()` gives undefined, and `removeNode` cannot destructure it.
          return ThrewTypeError, i;
        }
        ghost var nodes, head, tail, nextHandle := executionList.nodes, executionList.head, executionList.tail, executionList.nextHandle;
        ghost var reach, removed, cells, healthy := executionList.reach, executionList.removed, executionList.cells, Healthy();
        ghost var order, cbs := Order(), Listeners();
        var node;
        node, i := Unregister(k);
        if healthy {
          RemovedAt(nodes, head, tail, nextHandle, reach, removed, cells, old(data), old(identifiers), order, cbs, k, node, i);
        }
      }
    }

    /** The healthy case of `remove`, in terms of the state before and after it. */
    lemma RemovedAt(nodes: map<Handle, Node<Key>>, head: Handle, tail: Handle, nextHandle: Handle, reach: seq<Handle>,
                    removed: set<Handle>, cells: map<Handle, Key>,
                    data0: map<Key, seq<Handle>>, ids0: map<Key, Identifier>, order: seq<Key>, cbs: seq<Callback>,
                    k: Key, node: Handle, i: nat)
      requires Valid()
      requires Shape(nodes, head, tail, nextHandle, reach, removed) && CellsOk(nodes, head, removed, cells)
      requires tail == LastOf(head, reach)
      requires RegistryOk(data0, ids0, cells) && k in data0 && data0[k] != [] && node == data0[k][|data0[k]| - 1]
      requires order == CellValues(cells, reach) && (forall j :: 0 <= j < |order| ==> order[j] in ids0)
      requires cbs == CallbacksOf(ids0, order)
      requires node in reach ==> i < |reach| && reach[i] == node && executionList.reach == Drop(reach, i)
      requires executionList.cells == cells - {node}
      requires identifiers == ids0[k := ids0[k].(references := ids0[k].references - 1)]
      requires executionList.tail == tail
      requires node == tail ==> !Healthy()
      requires node != tail ==> Healthy()
      ensures LastAt(order, i, k) && cbs[i] == ids0[k].callback
      ensures Order() == Drop(order, i) && Listeners() == Drop(cbs, i)
      ensures Healthy() <==> i < |order| - 1
    {
      ShapeGivesView(nodes, head, tail, nextHandle, reach, removed, cells);
      RemovalInOrder(head, tail, nextHandle, reach, cells, data0, ids0, identifiers, k, i);
    }

    /**
     * Pops the newest node of `k`, unlinks it from the list and counts one
     * reference less. The source then deletes the entry only if the entry
     * itself is missing, which it never is (the count is not what is tested),
     * so the entry stays even at zero references.
     */
    method Unregister(k: Key) returns (node: Handle, ghost i: nat)
      requires Valid() && k in data && data[k] != []
      modifies this, executionList
      ensures Valid()
      ensures data == old(data)[k := old(data[k])[..|old(data[k])| - 1]]
      ensures identifiers == old(identifiers)[k := old(identifiers[k]).(references := old(identifiers[k].references) - 1)]
      ensures node == old(data[k][|data[k]| - 1])
      ensures executionList.tail == old(executionList.tail) && executionList.cells == old(executionList.cells) - {node}
      ensures node in old(executionList.reach) ==>
        i < |old(executionList.reach)| && old(executionList.reach)[i] == node &&
        executionList.reach == Drop(old(executionList.reach), i)
      ensures node !in old(executionList.reach) ==> executionList.reach == old(executionList.reach)
      ensures node == old(executionList.tail) ==> !Healthy()
      ensures node != old(executionList.tail) ==> (Healthy() <==> old(Healthy()))
    {
      node := data[k][|data[k]| - 1];
      ghost var cells := executionList.cells;
      i := executionList.RemoveNode(node);
      Release(k, cells);
    }

    /**
     * The registry's side of `remove`: the top of the stack of `k` popped and
     * one reference less. The source pops before unlinking and decrements
     * after; nothing reads the registry in between, so the two writes are
     * made together here.
     */
    method Release(k: Key, ghost cells: map<Handle, Key>)
      requires RegistryOk(data, identifiers, cells) && k in data && data[k] != []
      modifies this
      ensures RegistryOk(data, identifiers, cells - {old(data[k][|data[k]| - 1])})
      ensures data == old(data)[k := old(data[k])[..|old(data[k])| - 1]]
      ensures identifiers == old(identifiers)[k := old(identifiers[k]).(references := old(identifiers[k].references) - 1)]
    {
      RemoveKeepsRegistry(data, identifiers, cells, k);
      data := data[k := data[k][..|data[k]| - 1]];
      identifiers := identifiers[k := identifiers[k].(references := identifiers[k].references - 1)];
    }

    /** A registry that nothing touched is as it was. */
    twostate lemma Untouched()
      requires old(Valid()) && unchanged(this, executionList)
      ensures Valid() && Listeners() == old(Listeners()) && (Healthy() <==> old(Healthy()))
    {
    }

    /** Position `j` of the chain holds a key whose owner is the `j`th listener. */
    lemma Walk()
      requires Valid()
      ensures ChainOk(executionList.nodes, executionList.head, executionList.reach, executionList.removed)
      ensures |Listeners()| == |executionList.reach|
      ensures forall j :: 0 <= j < |executionList.reach| ==> Owns(executionList.nodes, identifiers, executionList.reach[j], Listeners()[j])
    {
      ValuesAgree(executionList.nodes, executionList.head, executionList.reach, executionList.removed, executionList.cells);
    }

    /** Calls the owner of each key met walking from `head.next`, in order, all with `args`. */
    method Run(args: Args) returns (trace: seq<Invocation>)
      requires Valid()
      ensures trace == Calls(Listeners(), args)
    {
      Walk();
      trace := CallAlong(executionList.nodes, executionList.head, identifiers, args,
                         executionList.reach, executionList.removed, Listeners());
    }
  }
}

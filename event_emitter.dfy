/**
 * The public surface of src/eventEmitter.ts: a registry per event name,
 * created on the first `on` and dropped by an `off` without a listener.
 */
module EventEmitters {
  import opened Wrappers
  import opened ListShapes
  import opened CallbackMaps

  class EventEmitter {
    /** The registry of each event name (`events`). */
    var events: map<string, CallbackMap>
    /** The registries and their execution lists. */
    ghost var Repr: set<object>
    /** The name each registry and each execution list serves: no two names share one. */
    ghost var owner: map<object, string>

    /**
     * The registry of `e`, if any, is well kept, within `Repr` and serves `e`
     * alone. Stated per name, so that a proof unfolds a registry's invariant
     * only where it names it.
     */
    ghost predicate Kept(e: string)
      reads this, Repr
    {
      e in events ==>
        events[e] in Repr && events[e].executionList in Repr &&
        events[e] in owner && owner[events[e]] == e &&
        events[e].executionList in owner && owner[events[e].executionList] == e &&
        events[e].Valid()
    }

    /** Every registry is well kept. */
    ghost predicate Valid()
      reads this, Repr
    {
      forall e :: Kept(e)
    }

    /** The callbacks `emit(e)` calls, in order: none for a name with no registry. */
    ghost function Listeners(e: string): seq<Callback>
      reads this, Repr
      requires Kept(e)
    {
      if e in events then events[e].Listeners() else []
    }

    /** The instances registered for `e` and their reference counts: none for a name with no registry. */
    ghost function Ids(e: string): map<Key, Identifier>
      reads this, Repr
      requires Kept(e)
    {
      if e in events then events[e].identifiers else map[]
    }

    /** Every registration of `e` is reached by `emit(e)`: its list's tail is the last node on its chain. */
    ghost predicate Healthy(e: string)
      reads this, Repr
      requires Kept(e)
    {
      e !in events || events[e].Healthy()
    }

    /**
     * The registry of `f` is carried across a step that kept its name, its
     * objects and their owner, and touched neither the registry nor its list.
     */
    twostate lemma KeptAcross(f: string)
      requires old(Kept(f))
      requires f in events <==> f in old(events)
      requires f in events ==> events[f] == old(events[f]) && unchanged(events[f], events[f].executionList)
      requires old(Repr) <= Repr && forall o :: o in old(owner) ==> o in owner && owner[o] == old(owner[o])
      ensures Kept(f) && Listeners(f) == old(Listeners(f)) && (Healthy(f) <==> old(Healthy(f))) && Ids(f) == old(Ids(f))
    {
      if f in events {
        events[f].Untouched();
      }
    }

    constructor ()
      ensures Valid() && events == map[] && fresh(Repr)
      ensures forall e :: Listeners(e) == [] && Healthy(e) && Ids(e) == map[]
    {
      events := map[];
      Repr, owner := {}, map[];
    }

    /**
     * Adds `cb` as a listener of `e`, creating the registry of `e` first if
     * there is none. In a healthy registry `cb` is called last from now on; in
     * one whose tail is stale the new node is unreachable and `emit` is unchanged.
     */
    method On(e: string, cb: Callback) returns (ghost k: Key)
      requires Valid()
      modifies this, Repr
      ensures Valid() && fresh(Repr - old(Repr))
      ensures events.Keys == old(events.Keys) + {e}
      ensures IsCallbackId(old(Ids(e)), cb, k) && Ids(e) == AddedIdentifiers(old(Ids(e)), cb, k)
      ensures old(Healthy(e)) ==> Healthy(e) && Listeners(e) == old(Listeners(e)) + [cb]
      ensures !old(Healthy(e)) ==> !Healthy(e) && Listeners(e) == old(Listeners(e))
      ensures forall f :: f != e ==> Listeners(f) == old(Listeners(f)) && (Healthy(f) <==> old(Healthy(f))) && Ids(f) == old(Ids(f))
    {
      var registry := Registry(e);
      k := AddTo(e, cb);
    }

    /** `add` on the existing registry of `e` (`on`, last statement); the other names are untouched. */
    method AddTo(e: string, cb: Callback) returns (ghost k: Key)
      requires Valid() && e in events
      modifies events[e], events[e].executionList
      ensures Valid() && events == old(events) && Repr == old(Repr)
      ensures IsCallbackId(old(Ids(e)), cb, k) && Ids(e) == AddedIdentifiers(old(Ids(e)), cb, k)
      ensures old(Healthy(e)) ==> Healthy(e) && Listeners(e) == old(Listeners(e)) + [cb]
      ensures !old(Healthy(e)) ==> !Healthy(e) && Listeners(e) == old(Listeners(e))
      ensures forall f :: f != e ==> Listeners(f) == old(Listeners(f)) && (Healthy(f) <==> old(Healthy(f))) && Ids(f) == old(Ids(f))
    {
      var registry := events[e];
      assert Kept(e);
      assert Listeners(e) == registry.Listeners() && (Healthy(e) <==> registry.Healthy()) && Ids(e) == registry.identifiers;
      k := registry.Add(cb);
      Updated(e);
      assert Listeners(e) == registry.Listeners() && (Healthy(e) <==> registry.Healthy()) && Ids(e) == registry.identifiers;
    }

    /**
     * The registry of `e`, created empty if there is none (the first statement
     * of `on`); what `emit` does for each name is unchanged.
     */
    method Registry(e: string) returns (registry: CallbackMap)
      requires Valid()
      modifies this
      ensures Valid() && events == old(events)[e := registry]
      ensures e in old(events) ==>
        registry == old(events[e]) && registry in old(Repr) && registry.executionList in old(Repr) &&
        Repr == old(Repr) && owner == old(owner)
      ensures e !in old(events) ==> fresh(registry) && fresh(registry.executionList)
      ensures fresh(Repr - old(Repr))
      ensures forall f :: Listeners(f) == old(Listeners(f)) && (Healthy(f) <==> old(Healthy(f))) && Ids(f) == old(Ids(f))
    {
      if e in events {
        registry := events[e];
        assert Kept(e);
      } else {
        registry := Create(e);
      }
    }

    /**
     * Removes the newest registration of `listener` from `e`, or the whole
     * registry of `e` when no listener is given; does nothing for a name
     * with no registry. Removing an instance whose every registration is
     * already gone throws a TypeError, as the source's `pop` gives undefined
     * to `removeNode`; removing one never registered does nothing. In a
     * healthy registry the removed registration is the last place the
     * listener is called; removing the tail node leaves the tail stale.
     */
    method Off(e: string, listener: Option<Callback>) returns (outcome: Outcome, ghost k: Key, ghost i: nat)
      requires Valid()
      modifies this, Repr
      ensures Valid() && Repr == old(Repr)
      ensures forall f :: f != e ==> Listeners(f) == old(Listeners(f)) && (Healthy(f) <==> old(Healthy(f))) && Ids(f) == old(Ids(f))
      ensures e !in old(events) ==> outcome == Returned && events == old(events)
      ensures e in old(events) && listener.None? ==>
        outcome == Returned && events == old(events) - {e} && Listeners(e) == [] && Healthy(e) && Ids(e) == map[]
      ensures e in old(events) && listener.Some? ==>
        events == old(events) && IsCallbackId(old(Ids(e)), listener.value, k) &&
        (outcome == ThrewTypeError <==> k in old(Ids(e)) && old(Ids(e)[k].references) == 0)
      ensures e in old(events) && listener.Some? && !(k in old(Ids(e)) && old(Ids(e)[k].references) > 0) ==>
        Listeners(e) == old(Listeners(e)) && (Healthy(e) <==> old(Healthy(e))) && Ids(e) == old(Ids(e))
      ensures e in old(events) && listener.Some? && k in old(Ids(e)) && old(Ids(e)[k].references) > 0 ==>
        Ids(e) == old(Ids(e))[k := old(Ids(e)[k]).(references := old(Ids(e)[k].references) - 1)]
      ensures e in old(events) && listener.Some? && k in old(Ids(e)) && old(Ids(e)[k].references) > 0 ==>
        if old(Healthy(e)) then
          LastAt(old(Listeners(e)), i, listener.value) && Listeners(e) == Drop(old(Listeners(e)), i) &&
          (Healthy(e) <==> i < |old(Listeners(e))| - 1)
        else !Healthy(e)
    {
      k, i := Key("", 0), 0;
      if e !in events {
        return Returned, k, i;
      }
      match listener {
        case None =>
          Delete(e);
          outcome := Returned;
        case Some(cb) =>
          assert Kept(e);
          outcome, k, i := RemoveFrom(e, cb);
      }
    }

    /** `delete this.events[e]`: `emit(e)` calls nothing from now on. */
    method Delete(e: string)
      requires Valid() && e in events
      modifies this
      ensures Valid() && events == old(events) - {e} && Repr == old(Repr)
      ensures Listeners(e) == [] && Healthy(e) && Ids(e) == map[]
      ensures forall f :: f != e ==> Listeners(f) == old(Listeners(f)) && (Healthy(f) <==> old(Healthy(f))) && Ids(f) == old(Ids(f))
    {
      events := events - {e};
      forall f | f != e
        ensures Kept(f) && Listeners(f) == old(Listeners(f)) && (Healthy(f) <==> old(Healthy(f))) && Ids(f) == old(Ids(f))
      {
        KeptAcross(f);
      }
      assert Kept(e);
    }

    /** `remove` on the existing registry of `e` (`off`, last statement); the other names are untouched. */
    method RemoveFrom(e: string, cb: Callback) returns (outcome: Outcome, ghost k: Key, ghost i: nat)
      requires Valid() && e in events
      modifies events[e], events[e].executionList
      ensures Valid() && events == old(events) && Repr == old(Repr)
      ensures IsCallbackId(old(Ids(e)), cb, k)
      ensures outcome == ThrewTypeError <==> k in old(Ids(e)) && old(Ids(e)[k].references) == 0
      ensures !(k in old(Ids(e)) && old(Ids(e)[k].references) > 0) ==>
        Listeners(e) == old(Listeners(e)) && (Healthy(e) <==> old(Healthy(e))) && Ids(e) == old(Ids(e))
      ensures k in old(Ids(e)) && old(Ids(e)[k].references) > 0 ==>
        Ids(e) == old(Ids(e))[k := old(Ids(e)[k]).(references := old(Ids(e)[k].references) - 1)]
      ensures k in old(Ids(e)) && old(Ids(e)[k].references) > 0 ==>
        if old(Healthy(e)) then
          LastAt(old(Listeners(e)), i, cb) && Listeners(e) == Drop(old(Listeners(e)), i) &&
          (Healthy(e) <==> i < |old(Listeners(e))| - 1)
        else !Healthy(e)
      ensures forall f :: f != e ==> Listeners(f) == old(Listeners(f)) && (Healthy(f) <==> old(Healthy(f))) && Ids(f) == old(Ids(f))
    {
      var registry := events[e];
      assert Kept(e);
      assert Listeners(e) == registry.Listeners() && (Healthy(e) <==> registry.Healthy()) && Ids(e) == registry.identifiers;
      assert registry.data.Keys == Ids(e).Keys && forall k' :: k' in Ids(e) ==> Ids(e)[k'].references == |registry.data[k']|;
      // The emitter is neither the registry nor its list, so `remove` leaves `events` and `Repr` as they are.
      ghost var touched: set<object> := {registry, registry.executionList};
      assert this !in touched;
      outcome, k, i := registry.Remove(cb);
      Updated(e);
      if k !in old(registry.data) || old(registry.data[k]) == [] {
        registry.Untouched();
      }
      assert Listeners(e) == registry.Listeners() && (Healthy(e) <==> registry.Healthy()) && Ids(e) == registry.identifiers;
    }

    /** Calls the listeners of `e` in order, all with `args`; nothing for a name with no registry. */
    method Emit(e: string, args: Args) returns (trace: seq<Invocation>)
      requires Valid()
      ensures trace == Calls(Listeners(e), args)
    {
      if e in events {
        assert Kept(e);
        trace := events[e].Run(args);
      } else {
        trace := [];
      }
    }

    /** A new, empty registry for `e`, which has none. */
    method Create(e: string) returns (registry: CallbackMap)
      requires Valid() && e !in events
      modifies this
      ensures Valid() && events == old(events)[e := registry]
      ensures fresh(registry) && fresh(registry.executionList) && Repr == old(Repr) + {registry, registry.executionList}
      ensures forall f :: Listeners(f) == old(Listeners(f)) && (Healthy(f) <==> old(Healthy(f))) && Ids(f) == old(Ids(f))
    {
      registry := new CallbackMap();
      events := events[e := registry];
      Repr := Repr + {registry, registry.executionList};
      owner := owner[registry := e][registry.executionList := e];
      Created(e);
    }

    /** Every name keeps its registry and what `emit` does across the creation of an empty registry for `e`. */
    twostate lemma Created(e: string)
      requires old(Valid()) && e !in old(events) && e in events
      requires events == old(events)[e := events[e]]
      requires fresh(events[e]) && fresh(events[e].executionList)
      requires events[e].Valid() && events[e].Listeners() == [] && events[e].Healthy() && events[e].identifiers == map[]
      requires forall f :: f in old(events) ==> unchanged(old(events[f]), old(events[f]).executionList)
      requires Repr == old(Repr) + {events[e], events[e].executionList}
      requires owner == old(owner)[events[e] := e][events[e].executionList := e]
      ensures Valid() && forall f :: Listeners(f) == old(Listeners(f)) && (Healthy(f) <==> old(Healthy(f))) && Ids(f) == old(Ids(f))
    {
      forall f | f != e
        ensures Kept(f) && Listeners(f) == old(Listeners(f)) && (Healthy(f) <==> old(Healthy(f))) && Ids(f) == old(Ids(f))
      {
        KeptAcross(f);
      }
      assert Kept(e);
    }

    /** Every other name keeps its registry and what `emit` does across a step that touched only the registry of `e`. */
    twostate lemma Updated(e: string)
      requires old(Valid()) && e in old(events)
      requires events == old(events) && Repr == old(Repr) && owner == old(owner)
      requires unchanged(old(Repr) - {events[e], events[e].executionList})
      requires events[e].Valid()
      ensures Valid() && forall f :: f != e ==> Listeners(f) == old(Listeners(f)) && (Healthy(f) <==> old(Healthy(f))) && Ids(f) == old(Ids(f))
      ensures old(Listeners(e)) == old(events[e].Listeners()) && (old(Healthy(e)) <==> old(events[e].Healthy()))
      ensures Listeners(e) == events[e].Listeners() && (Healthy(e) <==> events[e].Healthy())
    {
      forall f | f != e
        ensures Kept(f) && Listeners(f) == old(Listeners(f)) && (Healthy(f) <==> old(Healthy(f))) && Ids(f) == old(Ids(f))
      {
        assert old(Kept(f) && Kept(e));
        KeptAcross(f);
      }
      assert old(Kept(e));
      assert Kept(e);
    }
  }
}

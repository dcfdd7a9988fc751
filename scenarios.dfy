/**
 * The behaviours the repository's test suite (test/eventEmitter.spec.ts)
 * expects of `EventEmitter`, each run on a fresh emitter and stated as the
 * calls `emit` makes, for any event names, listeners and arguments; then
 * three behaviours of the code as written that the suite does not exercise.
 */
module Scenarios {
  import opened Wrappers
  import opened CallbackMaps
  import opened EventEmitters

  // Emitters in the states the scenarios start from.

  /** A fresh emitter after `on(e, f)`: `f` is the one listener of `e`, in the first slot of its text. */
  method Listening(e: string, f: Callback) returns (em: EventEmitter)
    ensures fresh(em) && fresh(em.Repr) && em.Valid()
    ensures em.Listeners(e) == [f] && em.Healthy(e)
    ensures em.Ids(e) == map[Key(f.text, 0) := Identifier(f, 1)]
    ensures forall d :: d != e ==> em.Listeners(d) == [] && em.Healthy(d)
  {
    em := new EventEmitter();
    var k := em.On(e, f);
    assert k == Key(f.text, 0);
  }

  /** A fresh emitter after `on(e, f1)` and `on(e, f2)`: both are listeners of `e`, and `f1` owns the first slot. */
  method ListeningTwice(e: string, f1: Callback, f2: Callback) returns (em: EventEmitter)
    ensures fresh(em) && fresh(em.Repr) && em.Valid()
    ensures em.Listeners(e) == [f1, f2] && em.Healthy(e)
    ensures Key(f1.text, 0) in em.Ids(e) && em.Ids(e)[Key(f1.text, 0)].callback == f1
    ensures em.Ids(e)[Key(f1.text, 0)].references > 0
  {
    em := Listening(e, f1);
    var k := em.On(e, f2);
  }

  /** A fresh emitter after `on(e, f1)` and `on(other, f2)`. */
  method ListeningToTwo(e: string, other: string, f1: Callback, f2: Callback) returns (em: EventEmitter)
    requires other != e
    ensures fresh(em) && fresh(em.Repr) && em.Valid()
    ensures em.Listeners(e) == [f1] && em.Healthy(e)
    ensures em.Ids(e) == map[Key(f1.text, 0) := Identifier(f1, 1)]
    ensures em.Listeners(other) == [f2]
  {
    em := Listening(e, f1);
    assert em.Listeners(other) == [] && em.Healthy(other);
    var k := em.On(other, f2);
  }

  /**
   * A fresh emitter after `on(e, f)` and `off(e, f)`: nothing is called, the
   * identifier of `f` stays with no reference, and the list's tail is stale.
   */
  method ListenedAndRemoved(e: string, f: Callback) returns (em: EventEmitter, outcome: Outcome)
    ensures fresh(em) && fresh(em.Repr) && em.Valid()
    ensures outcome == Returned
    ensures em.Listeners(e) == [] && !em.Healthy(e)
    ensures em.Ids(e) == map[Key(f.text, 0) := Identifier(f, 0)]
  {
    em := Listening(e, f);
    ghost var k: Key, i: nat;
    outcome, k, i := em.Off(e, Some(f));
    assert k == Key(f.text, 0);
  }

  // The test suite's cases.

  /** Listening to an event calls the listener once, with the arguments `emit` got (none included). */
  method ListenThenEmit(e: string, f: Callback, args: Args) returns (trace: seq<Invocation>)
    ensures trace == [Invocation(f, args)]
  {
    var em := Listening(e, f);
    trace := em.Emit(e, args);
  }

  /** Emitting twice calls the listener twice, each time with that emit's arguments. */
  method EmitTwice(e: string, f: Callback, args1: Args, args2: Args) returns (first: seq<Invocation>, second: seq<Invocation>)
    ensures first == [Invocation(f, args1)] && second == [Invocation(f, args2)]
  {
    var em := Listening(e, f);
    first := em.Emit(e, args1);
    second := em.Emit(e, args2);
  }

  /** A listener of another event is not called. */
  method ListenOtherEvent(e: string, other: string, f: Callback, args: Args) returns (trace: seq<Invocation>)
    requires other != e
    ensures trace == []
  {
    var em := Listening(other, f);
    trace := em.Emit(e, args);
  }

  /** Two listeners of one event are both called, in the order they were added. */
  method ListenTwoCallbacks(e: string, f1: Callback, f2: Callback, args: Args) returns (trace: seq<Invocation>)
    ensures trace == [Invocation(f1, args), Invocation(f2, args)]
  {
    var em := ListeningTwice(e, f1, f2);
    trace := em.Emit(e, args);
  }

  /** The same listener added twice is called twice. */
  method ListenSameCallbackTwice(e: string, f: Callback, args: Args) returns (trace: seq<Invocation>)
    ensures trace == [Invocation(f, args), Invocation(f, args)]
  {
    trace := ListenTwoCallbacks(e, f, f, args);
  }

  /** Removing a listener from an event nobody listens to does not throw. */
  method RemoveUnlistened(e: string, f: Callback) returns (outcome: Outcome)
    ensures outcome == Returned
  {
    var em := new EventEmitter();
    ghost var k: Key, i: nat;
    outcome, k, i := em.Off(e, Some(f));
  }

  /** A listener added and then removed is not called. */
  method ListenThenRemove(e: string, f: Callback, args: Args) returns (outcome: Outcome, trace: seq<Invocation>)
    ensures outcome == Returned && trace == []
  {
    var em;
    em, outcome := ListenedAndRemoved(e, f);
    trace := em.Emit(e, args);
  }

  /**
   * Of two listeners, removing the first leaves the second alone; when the
   * two are the same instance, one of its two registrations is left.
   */
  method RemoveOneOfTwo(e: string, f1: Callback, f2: Callback, args: Args) returns (outcome: Outcome, trace: seq<Invocation>)
    ensures outcome == Returned && trace == [Invocation(f2, args)]
  {
    var em := ListeningTwice(e, f1, f2);
    ghost var k: Key, i: nat;
    outcome, k, i := em.Off(e, Some(f1));
    assert k == Key(f1.text, 0);
    trace := em.Emit(e, args);
  }

  /** A listener added twice and removed once is still called once. */
  method ListenTwiceRemoveOnce(e: string, f: Callback, args: Args) returns (outcome: Outcome, trace: seq<Invocation>)
    ensures outcome == Returned && trace == [Invocation(f, args)]
  {
    outcome, trace := RemoveOneOfTwo(e, f, f, args);
  }

  /** Removing the listener of one event leaves the listener of another event called. */
  method RemoveFromOneEvent(e: string, other: string, f1: Callback, f2: Callback, args: Args)
    returns (outcome: Outcome, trace: seq<Invocation>)
    requires other != e
    ensures outcome == Returned && trace == [Invocation(f2, args)]
  {
    var em := ListeningToTwo(e, other, f1, f2);
    ghost var k: Key, i: nat;
    outcome, k, i := em.Off(e, Some(f1));
    assert k == Key(f1.text, 0);
    trace := em.Emit(other, args);
  }

  // Behaviours of the code as written.

  /** `off` without a listener forgets every listener of the event. */
  method RemoveWholeEvent(e: string, f1: Callback, f2: Callback, args: Args) returns (outcome: Outcome, trace: seq<Invocation>)
    ensures outcome == Returned && trace == []
  {
    var em := ListeningTwice(e, f1, f2);
    ghost var k: Key, i: nat;
    outcome, k, i := em.Off(e, None);
    trace := em.Emit(e, args);
  }

  /**
   * Removing the newest registration leaves the list's tail on the unlinked
   * node, so a listener added afterwards hangs off that node and `emit`
   * never reaches it.
   */
  method ListenerAfterRemovingTailIsLost(e: string, f: Callback, g: Callback, args: Args) returns (trace: seq<Invocation>)
    ensures trace == []
  {
    var em, outcome := ListenedAndRemoved(e, f);
    var k := em.On(e, g);
    trace := em.Emit(e, args);
  }

  /** Removing a listener once more than it was added throws a TypeError. */
  method RemoveTwice(e: string, f: Callback) returns (first: Outcome, second: Outcome)
    ensures first == Returned && second == ThrewTypeError
  {
    var em;
    em, first := ListenedAndRemoved(e, f);
    ghost var k: Key, i: nat;
    second, k, i := em.Off(e, Some(f));
    assert k == Key(f.text, 0);
  }
}

/**
 * The event registry behind the worker's `on`, `off` and `emit` globals
 * (preamble.js:8-20), and the message intake that drives it together with
 * the `onmessage` slot (preamble.js:25-30).
 *
 * An event name maps to the ordered list of listeners registered for it.
 * Listeners are compared by identity; the type parameter L stands for them.
 * Calling a listener is observable only as a Call record: what the callback
 * itself does is outside the model.
 */
module Events {
  import opened Wrappers

  type Registry<L> = map<string, seq<L>>

  /** One invocation of a user callback with the arguments of an event. */
  datatype Call<L, V> = Call(listener: L, args: seq<V>)

  /** The event name under which inbound messages are re-emitted. */
  const MessageEventName: string := "message"

  /** The emitter never keeps an event name whose list is empty. */
  predicate WellFormed<L>(reg: Registry<L>) {
    forall e :: e in reg ==> reg[e] != []
  }

  /** The listeners of an event, in registration order. */
  function Listeners<L>(reg: Registry<L>, event: string): seq<L> {
    if event in reg then reg[event] else []
  }

  /** `on(event, f)` / `addEventListener(event, f)`: f joins the end of the list; duplicates are kept. */
  function Added<L>(reg: Registry<L>, event: string, f: L): (r: Registry<L>)
    ensures Listeners(r, event) == Listeners(reg, event) + [f]
    ensures forall e :: e != event ==> Listeners(r, e) == Listeners(reg, e)
    ensures WellFormed(reg) ==> WellFormed(r)
  {
    reg[event := Listeners(reg, event) + [f]]
  }

  /** The position of the most recently added occurrence of f, if any. */
  function LastIndexOf<L(==)>(ls: seq<L>, f: L): (r: Option<nat>)
    ensures r.None? <==> f !in ls
    ensures r.Some? ==> r.value < |ls| && ls[r.value] == f && f !in ls[r.value + 1..]
    decreases |ls|
  {
    if ls == [] then None
    else if ls[|ls| - 1] == f then Some(|ls| - 1)
    else
      var r := LastIndexOf(ls[..|ls| - 1], f);
      assert ls == ls[..|ls| - 1] + [ls[|ls| - 1]];
      r
  }

  /** The listeners other than f, in their order. */
  function Others<L(==)>(ls: seq<L>, f: L): seq<L> {
    if ls == [] then []
    else (if ls[0] == f then [] else [ls[0]]) + Others(ls[1..], f)
  }

  lemma {:induction false} OthersConcat<L>(a: seq<L>, b: seq<L>, f: L)
    ensures Others(a + b, f) == Others(a, f) + Others(b, f)
    decreases |a|
  {
    if a == [] {
      assert a + b == b;
    } else {
      assert (a + b)[0] == a[0];
      assert (a + b)[1..] == a[1..] + b;
      OthersConcat(a[1..], b, f);
    }
  }

  /** Dropping one occurrence of f leaves the others in place. */
  lemma OthersDropOne<L>(ls: seq<L>, i: nat, f: L)
    requires i < |ls| && ls[i] == f
    ensures Others(ls[..i] + ls[i + 1..], f) == Others(ls, f)
  {
    var tail := ls[i + 1..];
    assert ls == ls[..i] + ([f] + tail);
    OthersConcat(ls[..i], [f] + tail, f);
    OthersConcat(ls[..i], tail, f);
    assert ([f] + tail)[1..] == tail;
    assert Others([f] + tail, f) == Others(tail, f);
  }

  /**
   * r is ls without its most recently added occurrence of f: the one with no
   * copy of f after it. Without f, nothing changes.
   */
  predicate DropsLastCopy<L(==)>(ls: seq<L>, f: L, r: seq<L>) {
    if f in ls then
      exists i :: 0 <= i < |ls| && ls[i] == f && f !in ls[i + 1..] && r == ls[..i] + ls[i + 1..]
    else
      r == ls
  }

  /** The list after dropping the last occurrence of f; unchanged when f is absent. */
  function Unlisted<L(==)>(ls: seq<L>, f: L): (r: seq<L>)
    ensures DropsLastCopy(ls, f, r)
    ensures multiset(r) == multiset(ls) - multiset{f}
    ensures Others(r, f) == Others(ls, f)
  {
    match LastIndexOf(ls, f)
    case None => ls
    case Some(i) =>
      assert ls == ls[..i] + [f] + ls[i + 1..];
      OthersDropOne(ls, i, f);
      ls[..i] + ls[i + 1..]
  }

  /** The registry with the event's list replaced; an empty list drops the event name. */
  function WithListeners<L>(reg: Registry<L>, event: string, ls: seq<L>): (r: Registry<L>)
    ensures Listeners(r, event) == ls
    ensures forall e :: e != event ==> Listeners(r, e) == Listeners(reg, e)
    ensures WellFormed(reg) ==> WellFormed(r)
  {
    if ls == [] then reg - {event} else reg[event := ls]
  }

  /**
   * `off(event, f)` / `removeEventListener(event, f)`: the most recently
   * added occurrence of f leaves the event's list, and the event name goes
   * when its list becomes empty.
   */
  function Removed<L(==)>(reg: Registry<L>, event: string, f: L): (r: Registry<L>)
    ensures DropsLastCopy(Listeners(reg, event), f, Listeners(r, event))
    ensures multiset(Listeners(r, event)) == multiset(Listeners(reg, event)) - multiset{f}
    ensures Others(Listeners(r, event), f) == Others(Listeners(reg, event), f)
    ensures forall e :: e != event ==> Listeners(r, e) == Listeners(reg, e)
    ensures WellFormed(reg) ==> WellFormed(r)
  {
    WithListeners(reg, event, Unlisted(Listeners(reg, event), f))
  }

  /** `emit(event, ...args)`: every listener of the event is called with the same arguments, in order. */
  function Fanout<L, V>(ls: seq<L>, args: seq<V>): (r: seq<Call<L, V>>)
    ensures |r| == |ls|
    ensures forall i :: 0 <= i < |ls| ==> r[i] == Call(ls[i], args)
    decreases |ls|
  {
    if ls == [] then [] else [Call(ls[0], args)] + Fanout(ls[1..], args)
  }

  /**
   * One inbound message (preamble.js:25-30): the "message" listeners, in
   * registration order, then the `onmessage` slot if it holds a handler,
   * all with the same arguments.
   */
  function Delivery<L, V>(reg: Registry<L>, onmessage: Option<L>, args: seq<V>): (r: seq<Call<L, V>>)
    ensures |r| == |Listeners(reg, MessageEventName)| + (if onmessage.Some? then 1 else 0)
    ensures forall i :: 0 <= i < |Listeners(reg, MessageEventName)| ==> r[i] == Call(Listeners(reg, MessageEventName)[i], args)
    ensures onmessage.Some? ==> r[|r| - 1] == Call(onmessage.value, args)
    ensures forall c :: c in r ==> c.args == args
  {
    Fanout(Listeners(reg, MessageEventName), args) + (if onmessage.Some? then [Call(onmessage.value, args)] else [])
  }

  /** The listeners invoked by a sequence of calls, in order. */
  function Callees<L, V>(calls: seq<Call<L, V>>): (ls: seq<L>)
    ensures |ls| == |calls|
  {
    seq(|calls|, i requires 0 <= i < |calls| => calls[i].listener)
  }

  /** How many times f is invoked by a sequence of calls. */
  function Invocations<L(==), V>(calls: seq<Call<L, V>>, f: L): nat {
    multiset(Callees(calls))[f]
  }

  lemma CalleesOfFanout<L, V>(ls: seq<L>, args: seq<V>)
    ensures Callees(Fanout(ls, args)) == ls
  {
  }

  lemma UnlistedAppended<L>(ls: seq<L>, f: L)
    ensures Unlisted(ls + [f], f) == ls
  {
    assert LastIndexOf(ls + [f], f) == Some(|ls|);
    assert (ls + [f])[..|ls|] == ls;
  }

  /** Putting an event's own list back, after any change to it, restores the registry. */
  lemma RestoreEvent<L>(reg: Registry<L>, event: string, ls: seq<L>)
    requires WellFormed(reg)
    ensures WithListeners(reg[event := ls], event, Listeners(reg, event)) == reg
  {
    if event in reg {
      assert reg[event := ls][event := reg[event]] == reg;
    } else {
      assert reg[event := ls] - {event} == reg;
    }
  }

  /** Off after on restores the registry exactly: the later registration is the one removed. */
  lemma OffUndoesOn<L>(reg: Registry<L>, event: string, f: L)
    requires WellFormed(reg)
    ensures Removed(Added(reg, event, f), event, f) == reg
  {
    var ls := Listeners(reg, event);
    var added := reg[event := ls + [f]];
    assert Added(reg, event, f) == added;
    assert Listeners(added, event) == ls + [f];
    UnlistedAppended(ls, f);
    assert Removed(added, event, f) == WithListeners(added, event, ls);
    RestoreEvent(reg, event, ls + [f]);
  }

  /** A listener registered and then removed again is not called by a later emit, unless it was there before. */
  lemma OnThenOffSilences<L, V>(reg: Registry<L>, event: string, f: L, args: seq<V>)
    requires WellFormed(reg) && f !in Listeners(reg, event)
    ensures forall c :: c in Fanout(Listeners(Removed(Added(reg, event, f), event, f), event), args) ==> c.listener != f
    ensures Fanout(Listeners(Removed(Added(reg, event, f), event, f), event), args) == Fanout(Listeners(reg, event), args)
  {
    OffUndoesOn(reg, event, f);
  }

  /** Every inbound message calls `onmessage` exactly once besides its calls as a registered listener. */
  lemma {:induction false} OnMessageOncePerMessage<L, V>(reg: Registry<L>, h: L, args: seq<V>)
    ensures Invocations(Delivery(reg, Some(h), args), h) == multiset(Listeners(reg, MessageEventName))[h] + 1
    ensures h !in Listeners(reg, MessageEventName) ==> Invocations(Delivery(reg, Some(h), args), h) == 1
  {
    var ls := Listeners(reg, MessageEventName);
    var d := Delivery(reg, Some(h), args);
    CalleesOfFanout(ls, args);
    assert d == Fanout(ls, args) + [Call(h, args)];
    assert Callees(d) == ls + [h];
  }

  /** With the slot unset, an inbound message calls only the registered listeners. */
  lemma {:induction false} NoHandlerOnlyListeners<L, V>(reg: Registry<L>, args: seq<V>)
    ensures Callees(Delivery(reg, None, args)) == Listeners(reg, MessageEventName)
  {
    assert Delivery(reg, None, args) == Fanout(Listeners(reg, MessageEventName), args);
    CalleesOfFanout(Listeners(reg, MessageEventName), args);
  }
}

/**
 * The global scope the bootstrap installs in every worker (preamble.js:1-70):
 * the listener registry with `on`, `off`, `emit` and their aliases, the
 * assignable `onmessage` slot, the parent port's message handler,
 * `postMessage`, and `importScripts`.
 *
 * The scope's observable history is kept in three traces: the user
 * callbacks invoked (`calls`), the messages sent to the parent (`outbox`)
 * and the import steps taken (`steps`).
 */
module Scope {
  import opened Wrappers
  import opened Messages
  import opened Events
  import opened Imports

  /**
   * L stands for listener identity, I for the arguments the parent port
   * delivers, O for the values the worker posts, and X for transfer lists.
   */
  class WorkerScope<L(==), I, O, X> {
    /** The emitter's registry: event name to listeners, in registration order. */
    var listeners: Registry<L>
    /** `let onmessage = null` (preamble.js:2); None stands for null. */
    var onmessage: Option<L>
    /** The user callbacks invoked so far, in order. */
    var calls: seq<Call<L, I>>
    /** The messages sent to the parent port so far, in order. */
    var outbox: seq<Posted<O, X>>
    /** The import steps taken so far, in order. */
    var steps: seq<Step>

    ghost predicate Valid()
      reads this
    {
      WellFormed(listeners)
    }

    /** The scope as the bootstrap leaves it, before the user script runs. */
    constructor ()
      ensures Valid()
      ensures listeners == map[] && onmessage == None
      ensures calls == [] && outbox == [] && steps == []
    {
      listeners, onmessage := map[], None;
      calls, outbox, steps := [], [], [];
    }

    /** `on(event, f)` (preamble.js:14) */
    method On(event: string, f: L)
      requires Valid()
      modifies this`listeners
      ensures Valid()
      ensures listeners == Added(old(listeners), event, f)
    {
      listeners := Added(listeners, event, f);
    }

    /** `off(event, f)` (preamble.js:15) */
    method Off(event: string, f: L)
      requires Valid()
      modifies this`listeners
      ensures Valid()
      ensures listeners == Removed(old(listeners), event, f)
    {
      listeners := Removed(listeners, event, f);
    }

    /** `addEventListener`, the same function as `on` (preamble.js:19) */
    method AddEventListener(event: string, f: L)
      requires Valid()
      modifies this`listeners
      ensures Valid()
      ensures listeners == Added(old(listeners), event, f)
    {
      On(event, f);
    }

    /** `removeEventListener`, the same function as `off` (preamble.js:20) */
    method RemoveEventListener(event: string, f: L)
      requires Valid()
      modifies this`listeners
      ensures Valid()
      ensures listeners == Removed(old(listeners), event, f)
    {
      Off(event, f);
    }

    /**
     * `emit(event, ...args)` (preamble.js:16): calls the event's listeners
     * with the same arguments, in registration order, and tells whether
     * there were any.
     */
    method Emit(event: string, args: seq<I>) returns (hadListeners: bool)
      requires Valid()
      modifies this`calls
      ensures calls == old(calls) + Fanout(Listeners(listeners, event), args)
      ensures hadListeners <==> event in listeners
    {
      // The emitter walks a copy of the list taken before the first call.
      var snapshot := Listeners(listeners, event);
      var i := 0;
      while i < |snapshot|
        invariant 0 <= i <= |snapshot|
        invariant calls == old(calls) + Fanout(snapshot[..i], args)
      {
        assert snapshot[..i + 1] == snapshot[..i] + [snapshot[i]];
        assert Fanout(snapshot[..i + 1], args) == Fanout(snapshot[..i], args) + [Call(snapshot[i], args)];
        calls := calls + [Call(snapshot[i], args)];
        i := i + 1;
      }
      assert snapshot[..i] == snapshot;
      hadListeners := snapshot != [];
    }

    /** `onmessage = handler` in the user script; None stands for null. */
    method SetOnMessage(handler: Option<L>)
      modifies this`onmessage
      ensures onmessage == handler
    {
      onmessage := handler;
    }

    /**
     * The parent port's "message" handler (preamble.js:25-30): re-emits the
     * message to the registry, then calls `onmessage` if it is set.
     */
    method ReceiveMessage(args: seq<I>)
      requires Valid()
      modifies this`calls
      ensures calls == old(calls) + Delivery(listeners, onmessage, args)
    {
      var _ := Emit(MessageEventName, args);
      if onmessage.Some? {
        calls := calls + [Call(onmessage.value, args)];
      }
    }

    /** `postMessage(message, transfer)` (preamble.js:35-37) */
    method PostMessage(message: O, transfer: X)
      modifies this`outbox
      ensures outbox == old(outbox) + [Posted(Envelope(message), transfer)]
    {
      outbox := outbox + [Posted(Envelope(message), transfer)];
    }

    /**
     * One pass of the `importScripts` loop (preamble.js:55-68): resolve the
     * name, read the file, run its text. A failed resolution or read records
     * the steps taken so far and gives the error that the loop throws.
     */
    method LoadScript(name: string, resolve: Resolver, read: Reader) returns (thrown: Option<ScriptError>)
      modifies this`steps
      ensures thrown.None? <==> Loads(name, resolve, read)
      ensures Loads(name, resolve, read) ==> steps == old(steps) + LoadSteps(name, resolve, read)
      ensures !Loads(name, resolve, read) ==>
        steps == old(steps) + Failure(name, resolve, read).steps && thrown == Failure(name, resolve, read).thrown
    {
      steps := steps + [Resolve(name)];
      match resolve(name)
      case Threw(m) =>
        return Some(SyntaxError(m));
      case Done(path) =>
        steps := steps + [Read(path)];
        match read(path)
        case Threw(m) =>
          return Some(NetworkError(m));
        case Done(code) =>
          steps := steps + [Run(path, code)];
          return None;
    }

    /** `importScripts(...names)` (preamble.js:53-70) */
    method ImportScripts(names: seq<string>, resolve: Resolver, read: Reader) returns (thrown: Option<ScriptError>)
      modifies this`steps
      ensures steps == old(steps) + Import(names, resolve, read).steps
      ensures thrown == Import(names, resolve, read).thrown
    {
      for i := 0 to |names|
        invariant AllLoad(names[..i], resolve, read)
        invariant steps == old(steps) + Loaded(names[..i], resolve, read)
      {
        thrown := LoadScript(names[i], resolve, read);
        if thrown.Some? {
          ImportStopsAtFirstFailure(names, i, resolve, read);
          return;
        }
        LoadedSnoc(names, i, resolve, read);
      }
      assert names[..|names|] == names;
      ImportAllLoad(names, resolve, read);
      thrown := None;
    }
  }
}

# nine-to-five: the worker bootstrap and the prime-list workers, in Dafny

nine-to-five gives Node.js programs browser-style Web Workers on top of
`worker_threads`. Every worker script runs after a bootstrap
(`preamble.js`). The bootstrap rebuilds the global surface a browser worker
expects:

- an event registry with `on`, `off` and `emit`, plus the aliases
  `addEventListener` and `removeEventListener`;
- an assignable `onmessage` slot, which starts as `null`;
- a parent-port handler that hands every inbound message first to the
  "message" listeners and then to `onmessage`;
- `postMessage`, which wraps a value as `{ data: value }`;
- `btoa` and `atob`;
- `importScripts`, which resolves, reads and runs scripts in order, with
  two kinds of error.

The test worker scripts `seive.js` and `one-second.js` grow a list of
primes by trial division and post the list to their parent.

This project models that logic and proves its properties:

- `wrappers.dfy` (`Wrappers`): the Option type.
- `messages.dfy` (`Messages`): the `{ data: value }` envelope, and a posted
  message with its transfer list.
- `events.dfy` (`Events`): the registry as a value, with `on`, `off`, `emit`
  and the delivery of one inbound message. The lemmas cover dispatch order,
  how often `onmessage` is called, and off undoing on.
- `imports.dfy` (`Imports`): the `importScripts` loop as a function of two
  host oracles, one for path resolution and one for file reading. The
  lemmas cover order, the error taxonomy and abort-on-first-failure.
- `scope.dfy` (`Scope`): the class `WorkerScope`, the worker's mutable
  global scope. It holds the registry, the `onmessage` slot, the trace of
  user callbacks invoked, the messages posted to the parent, and the
  import steps taken. `on`, `off`, `emit`, their aliases, the `onmessage`
  assignment, the parent-port handler, `postMessage` and `importScripts`
  are methods of the class, each proved against the functions above.
  `btoa` and `atob` change no state, so they are the pure functions
  `Base64.Btoa` and `Base64.Atob`.
- `base64.dfy` (`Base64`): `btoa` and `atob` as base64 over binary strings
  (section 4 of RFC 4648). Both round trips are proved, along with the
  output alphabet and length.
- `primes.dfy` (`PrimeList`): the trial-division loops as methods with loop
  invariants. The main invariant: the list is exactly the primes up to its
  last element, in ascending order. Candidate-search termination rests on
  Euclid's argument, and a uniqueness lemma shows a list of length k is the
  first k primes.
- `seive.dfy` (`SeiveWorker`) and `one_second.dfy` (`OneSecondWorker`): the
  two scripts, each posting its final list once.

Host collaborators are parameters:

- `path.resolve(__dirname, name)` is a total function `string -> Attempt<string>`.
- `fs.readFileSync(path, 'utf-8')` is a function of the same type.
- `vm.runInThisContext(code, { filename })` is a `Run(path, code)` step in a trace.
- Calling a user listener is a `Call(listener, args)` record.
- The wall clock of the two scripts is a number of rounds.

Listener identity is a type parameter with equality. The arguments the
parent port delivers, the values the worker posts, and transfer lists are
three further type parameters. Inbound and outbound messages can then have
different types; `seive.js`, for example, receives `{ data: n }` and posts
a list.

## Model

| member | source | states |
|---|---|---|
| `Scope.WorkerScope.constructor` | preamble.js:1-20 | the scope starts with an empty registry, `onmessage` unset (null) and empty traces |
| `Events.Added` | preamble.js:14 | `on(e, f)` appends f to e's listeners (duplicates kept), leaves every other event alone and keeps the registry free of empty lists |
| `Events.LastIndexOf` | preamble.js:15 | the position found for `off` holds f and no later position does; none exactly when f is absent |
| `Events.Removed` | preamble.js:15 | `off(e, f)` takes out of e's list the most recently added occurrence of f (the one with no copy of f after it) and keeps the rest in order; the list is unchanged when f is absent; the other listeners are not touched, and every other event is left alone |
| `Events.Fanout` | preamble.js:16 | `emit(e, ...args)` calls every listener of e once, with the same arguments, in registration order |
| `Events.Delivery` | preamble.js:25-30 | an inbound message calls the "message" listeners in registration order and then, if set, `onmessage` last, all with the same arguments |
| `Events.OffUndoesOn` | preamble.js:14-15 | `off(e, f)` right after `on(e, f)` gives back the registry exactly as it was |
| `Events.OnThenOffSilences` | preamble.js:14-16 | after `on(e, f)` then `off(e, f)`, `emit(e)` calls what it called before and not f, if f was not registered before |
| `Events.OnMessageOncePerMessage` | preamble.js:29 | with `onmessage` set to h, one message calls h exactly once more than h's registrations as a listener, and exactly once if h is not registered |
| `Events.NoHandlerOnlyListeners` | preamble.js:2 | with `onmessage` null, a message calls exactly the registered "message" listeners, in order |
| `Scope.WorkerScope.On` | preamble.js:14 | `on` updates the registry to `Added` of the old one |
| `Scope.WorkerScope.Off` | preamble.js:15 | `off` updates the registry to `Removed` of the old one |
| `Scope.WorkerScope.AddEventListener` | preamble.js:19 | has the same effect as `on` |
| `Scope.WorkerScope.RemoveEventListener` | preamble.js:20 | has the same effect as `off` |
| `Scope.WorkerScope.Emit` | preamble.js:16 | the call trace grows by `Fanout` of the event's listeners, walked over a snapshot; the result is true exactly when the event has listeners |
| `Scope.WorkerScope.SetOnMessage` | preamble.js:2 | assigning `onmessage` replaces the slot; only the latest value is kept |
| `Scope.WorkerScope.ReceiveMessage` | preamble.js:25-30 | the parent-port handler grows the call trace by `Delivery` of the current registry and the current `onmessage` |
| `Scope.WorkerScope.PostMessage` | preamble.js:35-37 | exactly one message goes to the parent; its payload is `{ data: message }` and the transfer list is passed through unchanged |
| `Scope.WorkerScope.ImportScripts` | preamble.js:53-70 | the step trace grows by the steps of `Import`, and the method throws the error of `Import` |
| `Scope.WorkerScope.LoadScript` | preamble.js:55-68 | one pass of the loop records the three steps of a name that loads and throws nothing; for a name that does not load, it records that name's failure steps and throws its error |
| `Imports.Import` | preamble.js:53-70 | an import of at least one name starts by resolving the first; it takes at most three steps per name, and exactly three per name when it throws nothing |
| `Imports.LoadedOrder` | preamble.js:54-69 | for names that all load, name i is resolved, read and run at steps 3i to 3i+2, so script i runs before name i+1 is resolved |
| `Imports.Failure` | preamble.js:56-67 | a name that does not resolve takes the single resolve step and throws an error of class SyntaxError, named "SyntaxError", with the resolver's message; one that resolves but does not read takes its resolve and read steps and throws an error of class Error, named "NetworkError", with the reader's message; a failing name is never run |
| `Imports.ImportAllLoad` | preamble.js:53-70 | when every name loads, the import runs all of them in order and throws nothing |
| `Imports.ImportStopsAtFirstFailure` | preamble.js:54-67 | at the first name that does not load, the earlier scripts have run, that name's failure steps come next along with its error, and no later name is touched |
| `Imports.ImportThrowsIff` | preamble.js:53-70 | an import throws exactly when some name does not load |
| `Base64.Encode` | preamble.js:42 | base64 output has length 4·⌈n/3⌉ for n bytes, uses only the alphabet and "=", and "=" only in the last two places |
| `Base64.ValueOf` | preamble.js:43 | a character has a 6-bit value exactly when it is in the base64 alphabet, and that value encodes back to the character |
| `Base64.DecodeLength` | preamble.js:43 | only text whose length is a multiple of four decodes; text of k groups gives between 3k-2 and 3k bytes |
| `Base64.DecodeEncode` | preamble.js:42-43 | decoding the encoding of any byte string gives it back |
| `Base64.EncodeDecode` | preamble.js:42-43 | a text that decodes is the encoding of what it decodes to, so the codec is a bijection onto canonical text |
| `Base64.Btoa` | preamble.js:42 | `btoa` of n characters has length 4·⌈n/3⌉ and uses only the base64 alphabet and "=" |
| `Base64.Atob` | preamble.js:43 | `atob` gives a result exactly when the text decodes; the result has one character per decoded byte, each below U+0100 |
| `Base64.AtobBtoa` | preamble.js:42-43 | `atob(btoa(s)) == s` for every string whose characters are all below 256 |
| `Base64.BtoaAtob` | preamble.js:42-43 | base64 text that `atob` accepts is what `btoa` makes of the result |
| `Base64.BtoaSeesLowBytes` | preamble.js:42 | `btoa` keeps only the low byte of each character, so strings that agree on low bytes encode alike |
| `PrimeList.FindDivisor` | test/worker-scripts/seive.js:24-30 | `foundADivisor` is true exactly when some element of the list divides the candidate |
| `PrimeList.NextCandidate` | test/worker-scripts/seive.js:22-35 | the candidate search ends; it returns a prime above the last element with no prime skipped between, so the extended list is again exactly the primes up to its end |
| `PrimeList.EuclidWitness` | test/worker-scripts/seive.js:22 | one more than the product of the list lies above its last element and has no divisor in the list, which bounds the search |
| `PrimeList.CandidateIsNextPrime` | test/worker-scripts/seive.js:31-34 | a candidate with no divisor in the list, when every number between the last element and it had one, is prime, and no prime lies between |
| `PrimeList.Grow` | test/worker-scripts/seive.js:16-38 | starting from [2], each of the given rounds appends one number, and the list ends as exactly the primes up to its last element, ascending, with length rounds+1 |
| `PrimeList.ExactPrimesUnique` | test/worker-scripts/one-second.js:15-34 | two such lists of equal length are equal, so after k rounds the list is the first k+1 primes |
| `SeiveWorker.OnMessage` | test/worker-scripts/seive.js:7-42 | the handler reads the duration from `message.data`, runs the rounds that fit in it, and posts exactly one message whose data is the final prime list |
| `OneSecondWorker.Run` | test/worker-scripts/one-second.js:6-37 | the script runs its rounds and posts exactly one message whose data is the final prime list, which is the first rounds+1 primes |

## Left out

- `Base64.Atob`: on text that is not canonical base64, Node's decoder is lenient (it skips characters outside the alphabet, stops at the first "=", and accepts missing padding and the URL-safe alphabet). The model decodes canonical text only and gives None for anything else, as section 4 of RFC 4648 describes.
- `Base64.Btoa`: JavaScript strings are UTF-16 code units, while a Dafny `char` is a Unicode scalar value. A character above U+FFFF is one character here but two code units in JavaScript, and surrogate code units cannot be represented.
- `Events.Removed`, `Events.Added`: the emitter's `newListener` and `removeListener` meta-events, its max-listener warning, `once` wrappers, and the TypeError for a non-function listener are not modelled. `emit('error')` throwing when nobody listens is not modelled either.
- `Scope.WorkerScope.ReceiveMessage`: user callbacks are opaque. A callback that throws, or that changes the registry or `onmessage` while being called, is not modelled. `onmessage` is `None` for every falsy value; a truthy value that is not callable, which would throw a TypeError, is not modelled.
- `Scope.WorkerScope.PostMessage`: the value and the transfer list are assumed to pass structured cloning. The DataCloneError that the port's `postMessage` throws for an uncloneable value or an invalid transfer list is not modelled, so the model's post always succeeds.
- `Scope.WorkerScope.ImportScripts`: code run by `vm.runInThisContext` cannot throw, define globals, or import further scripts here. Running is only a trace step. The oracles depend on the name or path alone, so file-system changes made by earlier imported scripts are not modelled.
- `SeiveWorker.OnMessage`, `OneSecondWorker.Run`: the wall clock (`new Date().getTime()`, `stop`) is replaced by a round count. For seive.js the count is an oracle of the requested duration. JavaScript numbers are doubles; the model uses unbounded integers, which agree with doubles for every list the scripts can reach.
- `PrimeList.NextCandidate`: in the scripts, `push` and `break` sit inside the candidate loop. The model ends the loop at the candidate and appends it in the caller, which has the same effect.
- The prime list is a local `seq` that grows by one element per round, as a JavaScript array grows by `push`. It is not a fixed-size Dafny array.
- `close()` (preamble.js:73) is not modelled: it only calls `process.exit()`, a process-level side effect.
- `XMLHttpRequest` (preamble.js:78) is not modelled: it is a third-party HTTP client.
- index.js is not modelled: its constructor only stores `script` and `options` and spawns a native worker. test/main.js, experiment.js and test/worker-scripts/timing.js are a test harness, a demo and host timers.
- Concurrency between workers is not modelled, including the parallel-speedup scenario. Each `WorkerScope` is one worker's own global scope.

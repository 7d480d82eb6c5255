/**
 * The `importScripts(...names)` global (preamble.js:45-70). Each name is
 * resolved to a path against the bootstrap's directory, the file is read,
 * and its text is run in the worker's global context, strictly in order.
 * A resolution failure becomes a SyntaxError, a read failure an Error
 * named "NetworkError", and the first failure ends the import.
 *
 * Path resolution and file reading are host operations; they appear as
 * oracles that either give a value or throw with a message. Running a
 * script is an opaque step recorded in the trace.
 */
module Imports {
  import opened Wrappers

  /** What a host operation gave back: a value, or an exception with its message. */
  datatype Attempt<T> = Done(value: T) | Threw(message: string)

  /** `path.resolve(__dirname, name)` */
  type Resolver = string -> Attempt<string>

  /** `fs.readFileSync(path, 'utf-8')` */
  type Reader = string -> Attempt<string>

  /** The constructor a thrown error was made with. */
  datatype ErrorClass = SyntaxErrorClass | ErrorClass

  /** A thrown JavaScript error: its class, its `name` and its `message`. */
  datatype ScriptError = ScriptError(cls: ErrorClass, name: string, message: string)

  /** `new SyntaxError(message)` */
  function SyntaxError(message: string): ScriptError {
    ScriptError(SyntaxErrorClass, "SyntaxError", message)
  }

  /** `new Error(message)` with its `name` set to "NetworkError" */
  function NetworkError(message: string): ScriptError {
    ScriptError(ErrorClass, "NetworkError", message)
  }

  /** One observable step of an import: a resolution, a read, a run of the text read. */
  datatype Step = Resolve(name: string) | Read(path: string) | Run(path: string, code: string)

  /** The outcome of one `importScripts` call: its steps, and the error it throws if any. */
  datatype Outcome = Outcome(steps: seq<Step>, thrown: Option<ScriptError>)

  /** A name that resolves and whose file reads. */
  predicate Loads(name: string, resolve: Resolver, read: Reader) {
    resolve(name).Done? && read(resolve(name).value).Done?
  }

  predicate AllLoad(names: seq<string>, resolve: Resolver, read: Reader) {
    forall i :: 0 <= i < |names| ==> Loads(names[i], resolve, read)
  }

  /** The three steps of a name that loads. */
  function LoadSteps(name: string, resolve: Resolver, read: Reader): seq<Step>
    requires Loads(name, resolve, read)
  {
    var path := resolve(name).value;
    [Resolve(name), Read(path), Run(path, read(path).value)]
  }

  /** The steps of a run of names that all load. */
  function Loaded(names: seq<string>, resolve: Resolver, read: Reader): (r: seq<Step>)
    requires AllLoad(names, resolve, read)
    ensures |r| == 3 * |names|
    decreases |names|
  {
    if names == [] then []
    else Loaded(names[..|names| - 1], resolve, read) + LoadSteps(names[|names| - 1], resolve, read)
  }

  /** Loading one more name adds its three steps at the end. */
  lemma LoadedSnoc(names: seq<string>, i: nat, resolve: Resolver, read: Reader)
    requires i < |names| && AllLoad(names[..i], resolve, read) && Loads(names[i], resolve, read)
    ensures AllLoad(names[..i + 1], resolve, read)
    ensures Loaded(names[..i + 1], resolve, read) == Loaded(names[..i], resolve, read) + LoadSteps(names[i], resolve, read)
  {
    assert names[..i + 1][..i] == names[..i];
  }

  /**
   * Name i is resolved, read and run at steps 3i, 3i+1 and 3i+2: each
   * script runs before the next name is resolved.
   */
  lemma {:induction false} LoadedOrder(names: seq<string>, i: nat, resolve: Resolver, read: Reader)
    requires AllLoad(names, resolve, read) && i < |names|
    ensures Loaded(names, resolve, read)[3 * i .. 3 * i + 3] == LoadSteps(names[i], resolve, read)
    decreases |names|
  {
    var init := names[..|names| - 1];
    var head := Loaded(init, resolve, read);
    assert Loaded(names, resolve, read) == head + LoadSteps(names[|names| - 1], resolve, read);
    if i < |names| - 1 {
      assert init[i] == names[i];
      LoadedOrder(init, i, resolve, read);
      assert (head + LoadSteps(names[|names| - 1], resolve, read))[3 * i .. 3 * i + 3] == head[3 * i .. 3 * i + 3];
    }
  }

  /** The steps and the error of a name that does not load. */
  function Failure(name: string, resolve: Resolver, read: Reader): (r: Outcome)
    requires !Loads(name, resolve, read)
    ensures r.thrown.Some? && |r.steps| > 0 && r.steps[0] == Resolve(name)
    ensures forall s :: s in r.steps ==> !s.Run?
    ensures resolve(name).Threw? ==>
      && r.steps == [Resolve(name)]
      && r.thrown.value.cls == SyntaxErrorClass && r.thrown.value.name == "SyntaxError"
      && r.thrown.value.message == resolve(name).message
    ensures resolve(name).Done? ==>
      && r.steps == [Resolve(name), Read(resolve(name).value)]
      && r.thrown.value.cls == ErrorClass && r.thrown.value.name == "NetworkError"
      && r.thrown.value.message == read(resolve(name).value).message
  {
    match resolve(name)
    case Threw(m) => Outcome([Resolve(name)], Some(SyntaxError(m)))
    case Done(path) => Outcome([Resolve(name), Read(path)], Some(NetworkError(read(path).message)))
  }

  /** `importScripts(...names)` */
  function Import(names: seq<string>, resolve: Resolver, read: Reader): (r: Outcome)
    ensures names != [] ==> |r.steps| > 0 && r.steps[0] == Resolve(names[0])
    ensures |r.steps| <= 3 * |names|
    ensures r.thrown.None? ==> |r.steps| == 3 * |names|
    decreases |names|
  {
    if names == [] then
      Outcome([], None)
    else if !Loads(names[0], resolve, read) then
      Failure(names[0], resolve, read)
    else
      var rest := Import(names[1..], resolve, read);
      Outcome(LoadSteps(names[0], resolve, read) + rest.steps, rest.thrown)
  }

  lemma {:induction false} LoadedCons(names: seq<string>, resolve: Resolver, read: Reader)
    requires names != [] && AllLoad(names, resolve, read)
    ensures Loaded(names, resolve, read) == LoadSteps(names[0], resolve, read) + Loaded(names[1..], resolve, read)
    decreases |names|
  {
    var init, tail := names[..|names| - 1], names[1..];
    if |names| == 1 {
      assert init == [] && tail == [];
    } else {
      assert AllLoad(init, resolve, read) by {
        forall i | 0 <= i < |init| ensures Loads(init[i], resolve, read) {
          assert init[i] == names[i];
        }
      }
      LoadedCons(init, resolve, read);
      assert init[0] == names[0];
      assert tail[..|tail| - 1] == init[1..];
      assert tail[|tail| - 1] == names[|names| - 1];
    }
  }

  /** When every name loads, each is resolved, read and run in order, and nothing is thrown. */
  lemma {:induction false} ImportAllLoad(names: seq<string>, resolve: Resolver, read: Reader)
    requires AllLoad(names, resolve, read)
    ensures Import(names, resolve, read) == Outcome(Loaded(names, resolve, read), None)
    decreases |names|
  {
    if names != [] {
      ImportAllLoad(names[1..], resolve, read);
      LoadedCons(names, resolve, read);
    }
  }

  /**
   * The first name that does not load ends the import: the names before it
   * have been run, it throws its SyntaxError or NetworkError, and no later
   * name is resolved.
   */
  lemma {:induction false} ImportStopsAtFirstFailure(names: seq<string>, k: nat, resolve: Resolver, read: Reader)
    requires k < |names|
    requires AllLoad(names[..k], resolve, read) && !Loads(names[k], resolve, read)
    ensures Import(names, resolve, read)
         == Outcome(Loaded(names[..k], resolve, read) + Failure(names[k], resolve, read).steps,
                    Failure(names[k], resolve, read).thrown)
    decreases k
  {
    if k > 0 {
      assert names[1..][..k - 1] == names[..k][1..];
      ImportStopsAtFirstFailure(names[1..], k - 1, resolve, read);
      LoadedCons(names[..k], resolve, read);
    }
  }

  /** An import throws exactly when some name does not load. */
  lemma {:induction false} ImportThrowsIff(names: seq<string>, resolve: Resolver, read: Reader)
    ensures Import(names, resolve, read).thrown.Some? <==> !AllLoad(names, resolve, read)
    decreases |names|
  {
    if names != [] {
      ImportThrowsIff(names[1..], resolve, read);
      if Loads(names[0], resolve, read) {
        assert AllLoad(names, resolve, read) <==> AllLoad(names[1..], resolve, read) by {
          if AllLoad(names[1..], resolve, read) {
            forall i | 0 <= i < |names| ensures Loads(names[i], resolve, read) {
              if i > 0 { assert names[i] == names[1..][i - 1]; }
            }
          }
        }
      }
    }
  }
}

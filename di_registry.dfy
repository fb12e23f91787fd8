/** The dependency-injection registry of main/libs/di_registry.py: one process-wide map
    from string keys to registered instances, the operations that change it, and the
    decorators `inject_fn` and `inject`, which read it each time the decorated function
    is called and pass what they find as keyword arguments. */
module DiRegistry {
  import opened Outcomes
  import Fun

  // ---------------------------------------------------------------------------
  // Keys

  /** `_key(client_class)`: the snake_case form of the class name. */
  function Key(className: string): (k: string)
    ensures forall i :: 0 <= i < |k| ==> !Fun.IsUpper(k[i])
  {
    Fun.CamelToSnake(className)
  }

  /** The compiled pattern `CTS = (?<!^)(?=[A-Z])` matches the empty string at position `i`
      of `text`: not at the start, and an upper-case ASCII letter follows. */
  predicate CtsMatchesAt(text: string, i: nat) {
    i != 0 && i < |text| && Fun.IsUpper(text[i])
  }

  /** `CTS.sub("_", text)` from position `i` on: the regex engine scans every position and
      inserts "_" where the empty match is found. */
  function CtsSubFrom(text: string, i: nat): string
    requires i <= |text|
    decreases |text| - i
  {
    if i == |text| then []
    else (if CtsMatchesAt(text, i) then "_" else "") + [text[i]] + CtsSubFrom(text, i + 1)
  }

  lemma {:induction false} CtsSubFromTail(text: string, i: nat)
    requires 1 <= i <= |text|
    decreases |text| - i
    ensures CtsSubFrom(text, i) == Fun.UnderscoreBeforeUpper(text[i..])
  {
    if i < |text| {
      CtsSubFromTail(text, i + 1);
      assert text[i..][1..] == text[i + 1..];
    }
  }

  /** Scanning for matches of `CTS` inserts the same underscores as the substitution in
      `fun.camel_to_snake`: none at index 0, one before every later upper-case letter. */
  lemma CtsSubAgrees(text: string)
    ensures CtsSubFrom(text, 0) == Fun.InsertUnderscores(text)
  {
    if text != [] {
      CtsSubFromTail(text, 1);
    }
  }

  /** `_camel_to_snake(text)`: `CTS.sub("_", text).lower()`. The private copy computes the same
      keys as `fun.camel_to_snake`. */
  function CtsCamelToSnake(text: string): (r: string)
    ensures r == Fun.CamelToSnake(text)
  {
    CtsSubAgrees(text);
    Fun.LowerAscii(CtsSubFrom(text, 0))
  }

  // ---------------------------------------------------------------------------
  // Calls of decorated functions

  /** The arguments of one call: positional `args` and keyword `kwargs`. */
  datatype Call<V> = Call(args: seq<V>, kwargs: map<string, V>)

  /** What a call of a decorated function did: the calls the wrapped function received,
      in order, and how the last of them ended. */
  datatype Invocation<V, R> = Invocation(calls: seq<Call<V>>, outcome: Outcome<R>)

  /** A function as the decorators leave it: undecorated, or wrapped by `inject_fn` or `inject`.
      `InjectFn` and `Inject` never build `NameInjecting` with an empty name or `TypeInjecting`
      with no classes (they return `Bare` then). `Invoke` still gives those two values a
      meaning: the first injects under the key "", the second calls `fn` unchanged. */
  datatype Decorated<!V, R> =
    | Bare(fn: Call<V> -> Outcome<R>)
    | NameInjecting(name: string, fn: Call<V> -> Outcome<R>)
    | TypeInjecting(classNames: seq<string>, fn: Call<V> -> Outcome<R>)

  /** `{**injected, **kwargs}`: the caller's keyword arguments win over the injected ones. */
  function MergeKwargs<V>(injected: map<string, V>, kwargs: map<string, V>): (r: map<string, V>)
    ensures r.Keys == injected.Keys + kwargs.Keys
    ensures forall k :: k in kwargs ==> r[k] == kwargs[k]
    ensures forall k :: k in injected && k !in kwargs ==> r[k] == injected[k]
  {
    injected + kwargs
  }

  /** `inject_fn`'s injected keyword arguments: the entry named `name`, if registered. */
  function InjectedByName<V>(registry: map<string, V>, name: string): (r: map<string, V>)
    ensures r.Keys <= {name}
    ensures name in r <==> name in registry
    ensures name in r ==> r[name] == registry[name]
  {
    if name in registry then map[name := registry[name]] else map[]
  }

  /** `inject` with one class: the registered instance, under the keyword `client`. */
  function InjectedSingle<V>(registry: map<string, V>, className: string): (r: map<string, V>)
    ensures r.Keys <= {"client"}
    ensures "client" in r <==> Key(className) in registry
    ensures "client" in r ==> r["client"] == registry[Key(className)]
  {
    if Key(className) in registry then map["client" := registry[Key(className)]] else map[]
  }

  /** The keys of the given classes. */
  function ClassKeys(classNames: seq<string>): set<string> {
    set i | 0 <= i < |classNames| :: Key(classNames[i])
  }

  lemma ClassKeysSnoc(classNames: seq<string>, front: seq<string>, last: string)
    requires classNames == front + [last]
    ensures ClassKeys(classNames) == ClassKeys(front) + {Key(last)}
  {
    forall k | k in ClassKeys(classNames)
      ensures k in ClassKeys(front) + {Key(last)}
    {
      var i :| 0 <= i < |classNames| && k == Key(classNames[i]);
      if i < |front| { assert k == Key(front[i]); }
    }
    forall k | k in ClassKeys(front)
      ensures k in ClassKeys(classNames)
    {
      var i :| 0 <= i < |front| && k == Key(front[i]);
      assert k == Key(classNames[i]);
    }
    assert Key(classNames[|front|]) in ClassKeys(classNames);
  }

  /** `inject` with several classes: the dict comprehension over the classes, in order,
      keeping the registered ones. Its keys are exactly the registered keys of the classes,
      each bound to its registered instance; unregistered classes are skipped. */
  function InjectedByTypes<V>(registry: map<string, V>, classNames: seq<string>): (r: map<string, V>)
    ensures r.Keys == ClassKeys(classNames) * registry.Keys
    ensures forall k :: k in r ==> r[k] == registry[k]
  {
    if classNames == [] then map[]
    else
      var n := |classNames| - 1;
      var front := InjectedByTypes(registry, classNames[..n]);
      assert classNames == classNames[..n] + [classNames[n]];
      ClassKeysSnoc(classNames, classNames[..n], classNames[n]);
      var k := Key(classNames[n]);
      if k in registry then front[k := registry[k]] else front
  }

  /** The body of `inject_fn`'s `wrapped`: call with the injected argument merged under the
      caller's; if that raises `TypeError`, call once more with the caller's arguments only
      and let that call's outcome stand, whatever it is. */
  function CallInjectingName<V, R>(registry: map<string, V>, name: string, fn: Call<V> -> Outcome<R>, call: Call<V>): (r: Invocation<V, R>)
    ensures 1 <= |r.calls| <= 2
    ensures r.calls[0] == Call(call.args, MergeKwargs(InjectedByName(registry, name), call.kwargs))
    ensures |r.calls| == 2 <==> fn(r.calls[0]) == Raised(TypeError)
    ensures |r.calls| == 2 ==> r.calls[1] == call
    ensures r.outcome == fn(r.calls[|r.calls| - 1])
  {
    var first := Call(call.args, MergeKwargs(InjectedByName(registry, name), call.kwargs));
    match fn(first)
    case Raised(TypeError) => Invocation([first, call], fn(call))
    case other => Invocation([first], other)
  }

  /** The body of `inject`'s `wrapped`: one call, with the injected arguments merged under
      the caller's; no exception is caught. */
  function CallInjectingTypes<V, R>(registry: map<string, V>, classNames: seq<string>, fn: Call<V> -> Outcome<R>, call: Call<V>): (r: Invocation<V, R>)
    requires classNames != []
    ensures |r.calls| == 1 && r.outcome == fn(r.calls[0])
    ensures r.calls[0].args == call.args
    ensures |classNames| == 1 ==> r.calls[0].kwargs == MergeKwargs(InjectedSingle(registry, classNames[0]), call.kwargs)
    ensures |classNames| > 1 ==> r.calls[0].kwargs == MergeKwargs(InjectedByTypes(registry, classNames), call.kwargs)
  {
    var injected := if |classNames| == 1 then InjectedSingle(registry, classNames[0]) else InjectedByTypes(registry, classNames);
    var first := Call(call.args, MergeKwargs(injected, call.kwargs));
    Invocation([first], fn(first))
  }

  /** `inject_fn(fn_name)(fn)`: an empty name leaves `fn` itself. */
  function InjectFn<V, R>(fnName: string, fn: Call<V> -> Outcome<R>): (d: Decorated<V, R>)
    ensures fnName == [] <==> d.Bare?
    ensures d.fn == fn
  {
    if fnName == [] then Bare(fn) else NameInjecting(fnName, fn)
  }

  /** `inject(*client_classes)(fn)`: no classes leaves `fn` itself. */
  function Inject<V, R>(classNames: seq<string>, fn: Call<V> -> Outcome<R>): (d: Decorated<V, R>)
    ensures classNames == [] <==> d.Bare?
    ensures d.fn == fn
  {
    if classNames == [] then Bare(fn) else TypeInjecting(classNames, fn)
  }

  /** Calling a decorated function while the registry holds `registry`. */
  function Invoke<V, R>(registry: map<string, V>, d: Decorated<V, R>, call: Call<V>): (r: Invocation<V, R>)
    ensures 1 <= |r.calls| <= 2 && r.outcome == d.fn(r.calls[|r.calls| - 1])
    ensures r.calls[0].args == call.args
    ensures forall k :: k in call.kwargs ==> k in r.calls[0].kwargs && r.calls[0].kwargs[k] == call.kwargs[k]
  {
    match d
    case Bare(fn) => Invocation([call], fn(call))
    case NameInjecting(name, fn) => CallInjectingName(registry, name, fn, call)
    case TypeInjecting(classNames, fn) =>
      if classNames == [] then Invocation([call], fn(call))
      else CallInjectingTypes(registry, classNames, fn, call)
  }

  // ---------------------------------------------------------------------------
  // Properties of the decorators

  /** `inject_fn("")` returns `fn` unchanged: the call goes through as made. */
  lemma InjectFnEmptyName<V, R>(registry: map<string, V>, fn: Call<V> -> Outcome<R>, call: Call<V>)
    ensures Invoke(registry, InjectFn([], fn), call) == Invocation([call], fn(call))
  {
  }

  /** `inject_fn(name)`: the first call receives `registry[name]` under `name` unless the
      caller passed `name` themselves, and otherwise exactly the caller's arguments. */
  lemma InjectFnFirstCall<V, R>(registry: map<string, V>, name: string, fn: Call<V> -> Outcome<R>, call: Call<V>)
    requires name != []
    ensures var first := Invoke(registry, InjectFn(name, fn), call).calls[0];
      && first.args == call.args
      && first.kwargs.Keys == call.kwargs.Keys + (if name in registry then {name} else {})
      && (name in registry && name !in call.kwargs ==> first.kwargs[name] == registry[name])
      && (forall k :: k in call.kwargs ==> first.kwargs[k] == call.kwargs[k])
      && (name !in registry ==> first == call)
  {
  }

  /** `inject_fn(name)`: a `TypeError` from the first call causes exactly one retry, with the
      caller's own arguments, and the retry's outcome is returned even if it raises again;
      any other outcome of the first call is returned as it is. */
  lemma InjectFnRetry<V, R>(registry: map<string, V>, name: string, fn: Call<V> -> Outcome<R>, call: Call<V>)
    requires name != []
    ensures var inv := Invoke(registry, InjectFn(name, fn), call);
      if fn(inv.calls[0]) == Raised(TypeError)
      then inv.calls == [inv.calls[0], call] && inv.outcome == fn(call)
      else inv.calls == [inv.calls[0]] && inv.outcome == fn(inv.calls[0])
  {
  }

  /** `inject()` with no classes returns `fn` unchanged. */
  lemma InjectNoClasses<V, R>(registry: map<string, V>, fn: Call<V> -> Outcome<R>, call: Call<V>)
    ensures Invoke(registry, Inject([], fn), call) == Invocation([call], fn(call))
  {
  }

  /** `inject(C)`: the only keyword that can be injected is `client`, bound to the instance
      registered for `C`; a `client` passed by the caller wins. */
  lemma InjectOneClass<V, R>(registry: map<string, V>, className: string, fn: Call<V> -> Outcome<R>, call: Call<V>)
    ensures var inv := Invoke(registry, Inject([className], fn), call);
      && inv.calls == [inv.calls[0]] && inv.outcome == fn(inv.calls[0])
      && inv.calls[0].kwargs.Keys == call.kwargs.Keys + (if Key(className) in registry then {"client"} else {})
      && ("client" !in call.kwargs && Key(className) in registry ==> inv.calls[0].kwargs["client"] == registry[Key(className)])
      && ("client" in call.kwargs ==> inv.calls[0].kwargs["client"] == call.kwargs["client"])
  {
  }

  /** `inject(C1, C2, ...)`: each registered class's key is injected with its instance unless
      the caller passed it; unregistered classes add nothing; the caller's keywords win. */
  lemma InjectManyClasses<V, R>(registry: map<string, V>, classNames: seq<string>, fn: Call<V> -> Outcome<R>, call: Call<V>)
    requires |classNames| >= 2
    ensures var inv := Invoke(registry, Inject(classNames, fn), call);
      && inv.calls == [inv.calls[0]] && inv.outcome == fn(inv.calls[0])
      && inv.calls[0].kwargs.Keys == call.kwargs.Keys + (ClassKeys(classNames) * registry.Keys)
      && (forall k :: k in ClassKeys(classNames) && k in registry && k !in call.kwargs ==> inv.calls[0].kwargs[k] == registry[k])
      && (forall k :: k in call.kwargs ==> inv.calls[0].kwargs[k] == call.kwargs[k])
  {
  }

  /** The two-class example: with only the first class registered, only its key is injected. */
  lemma InjectSecondMissing<V, R>(registry: map<string, V>, c1: string, c2: string, fn: Call<V> -> Outcome<R>, call: Call<V>)
    requires Key(c1) in registry && Key(c2) !in registry
    ensures InjectedByTypes(registry, [c1, c2]) == map[Key(c1) := registry[Key(c1)]]
    ensures Invoke(registry, Inject([c1, c2], fn), call).calls
      == [Call(call.args, map[Key(c1) := registry[Key(c1)]] + call.kwargs)]
  {
    var classNames := [c1, c2];
    assert ClassKeys(classNames) == {Key(c1), Key(c2)} by {
      assert Key(classNames[0]) == Key(c1) && Key(classNames[1]) == Key(c2);
    }
    var injected := InjectedByTypes(registry, classNames);
    assert injected.Keys == {Key(c1)};
    assert injected == map[Key(c1) := registry[Key(c1)]];
  }


  // ---------------------------------------------------------------------------
  // The registry

  /** What `client` does, in order, as seen from outside. */
  datatype Event<V> =
    | Registered(key: string, value: V)
    | Yielded(value: V)
    | Closed(value: V)
    | Deregistered(key: string)

  /** `_default_close`: does nothing. */
  function DefaultClose<V>(instance: V): Outcome<()> {
    Returned(())
  }

  /** The module-level dict `__REGISTRY` and the functions that change it in place. */
  class Registry<V> {
    var entries: map<string, V>

    /** The registry starts empty when the module is imported. */
    constructor ()
      ensures entries == map[]
    {
      entries := map[];
    }

    /** `register(client_class, instance)`: the class's key now maps to `instance`, replacing
        any earlier entry; no other entry changes. */
    method Register(className: string, instance: V)
      modifies this
      ensures entries == old(entries)[Key(className) := instance]
      ensures Key(className) in entries && entries[Key(className)] == instance
      ensures forall k :: k != Key(className) ==> (k in entries <==> k in old(entries))
      ensures forall k :: k != Key(className) && k in entries ==> entries[k] == old(entries)[k]
    {
      entries := entries[Key(className) := instance];
    }

    /** `register_fn(name, fn)`: stores `fn` under exactly `name` and returns `fn`. */
    method RegisterFn(name: string, fn: V) returns (r: V)
      modifies this
      ensures r == fn
      ensures entries == old(entries)[name := fn]
    {
      entries := entries[name := fn];
      r := fn;
    }

    /** `deregister(client_class)`: the class's key is gone and nothing else changes; an
        absent key leaves the registry as it was, without error. */
    method Deregister(className: string)
      modifies this
      ensures entries == old(entries) - {Key(className)}
      ensures Key(className) !in old(entries) ==> entries == old(entries)
    {
      if Key(className) in entries {
        entries := entries - {Key(className)};
      }
    }

    /** `with client(instance_class, instance, on_close) as yielded: body`. The with-block
        sees the registry with `instance` registered and receives `instance`; it may change
        the registry and may raise. On a normal exit `on_close(instance)` runs once and then
        the key is deregistered; if the block or `on_close` raises, nothing after it runs. */
    method Client(
      className: string, instance: V, onClose: V -> Outcome<()>,
      body: (map<string, V>, V) -> (map<string, V>, Outcome<()>))
      returns (log: seq<Event<V>>, outcome: Outcome<()>)
      modifies this
      ensures var exit := body(old(entries)[Key(className) := instance], instance);
        var entered := [Registered(Key(className), instance), Yielded(instance)];
        if exit.1.Raised? then
          log == entered && outcome == exit.1 && entries == exit.0
        else if onClose(instance).Raised? then
          log == entered + [Closed(instance)] && outcome == onClose(instance) && entries == exit.0
        else
          log == entered + [Closed(instance), Deregistered(Key(className))]
          && outcome == Returned(()) && entries == exit.0 - {Key(className)}
      ensures outcome.Returned? ==> Key(className) !in entries
    {
      Register(className, instance);
      log := [Registered(Key(className), instance), Yielded(instance)];
      var exit := body(entries, instance);
      entries := exit.0;
      if exit.1.Raised? {
        outcome := exit.1;
        return;
      }
      var closing := onClose(instance);
      log := log + [Closed(instance)];
      if closing.Raised? {
        outcome := closing;
        return;
      }
      Deregister(className);
      log := log + [Deregistered(Key(className))];
      outcome := Returned(());
    }

    /** `client(instance_class, instance)` with the default `on_close`: closing cannot fail,
        so whether the entry is removed depends only on whether the block raises. */
    method ClientDefault(
      className: string, instance: V,
      body: (map<string, V>, V) -> (map<string, V>, Outcome<()>))
      returns (log: seq<Event<V>>, outcome: Outcome<()>)
      modifies this
      ensures var exit := body(old(entries)[Key(className) := instance], instance);
        outcome == exit.1
        && (exit.1.Returned? ==>
              log == [Registered(Key(className), instance), Yielded(instance),
                      Closed(instance), Deregistered(Key(className))]
              && entries == exit.0 - {Key(className)})
        && (exit.1.Raised? ==>
              log == [Registered(Key(className), instance), Yielded(instance)]
              && entries == exit.0)
    {
      var exit := body(entries[Key(className) := instance], instance);
      log, outcome := Client(className, instance, DefaultClose, body);
      if exit.1.Returned? {
        assert exit.1.value == ();
      }
    }
  }
}

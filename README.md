# Dependency-injection registry and functional helpers, in Dafny

This project models the two library modules of a small Python command-line template.

- `main/libs/di_registry.py` is a dead-simple dependency-injection registry. A process-wide
  dict maps string keys to already-constructed service instances.
  - `register`, `register_fn` and `deregister` change the dict in place.
  - The `client` context manager registers an instance for the length of a `with` block.
  - The decorators `inject_fn` and `inject` read the dict each time the decorated function
    is called. They pass what they find as keyword arguments, and the caller's own keyword
    arguments win.
  - A class is keyed by its name in snake_case (`DnsClient` becomes `dns_client`).
- `main/libs/fun.py` holds pure helpers:
  - `camel_to_snake` and `snake_to_camel`;
  - `flatten` and `flatmap`;
  - `filter_keys`;
  - the dict re-keyers `snake_case_keys` and `camel_case_keys`;
  - the exception-swallowing `try_exec`.

Files:

- `outcomes.dfy` (module `Outcomes`): `Option`, the kinds of Python exception the handlers
  tell apart (`TypeError`, any other `Exception`, a `BaseException` outside `Exception`), and
  `Outcome<T>`, the result of calling a Python callable: `Returned(value)` or `Raised(exc)`.
- `fun.dfy` (module `Fun`): the helpers as recursive functions over `string` (`seq<char>`),
  sequences and maps, with lemmas.
- `di_registry.dfy` (module `DiRegistry`): the registry as `class Registry<V>` with a
  `map<string, V>` field that its methods reassign. The decorators are datatypes and pure
  functions of a registry snapshot.

How the source's dynamic parts are represented:

- A class passed to `register`, `deregister`, `inject` or `client` is represented by its
  `__name__`.
- The decorated function is a total function `Call<V> -> Outcome<R>`. Its argument holds the
  positional arguments and the keyword dict.
- Calling a decorated function (`Invoke`) yields the list of calls the wrapped function
  received, in order, and the outcome of the last one. So "exactly one retry" can be stated.
- The decorators themselves (`InjectFn`, `Inject`) return a `Decorated` value. An empty name
  or an empty class list gives back `Bare(fn)`, that is, `fn` itself.
- A dict whose iteration order matters (the input of `snake_case_keys` / `camel_case_keys`) is
  its item sequence in insertion order.
- The body of a `with client(...)` block is a function from the registry at the `yield` and
  the yielded value to the registry at exit and the block's outcome. `on_close` is a
  function from the instance to an outcome. `_default_close` is `DefaultClose`, which returns
  normally.
- The registry at import time is the empty map produced by the constructor.

Where the code and its documentation disagree, the model follows the code:

- `filter_keys` removes the listed keys. Its docstring says it retains them.
- `snake_case_keys` applies `camel_to_snake`, and `camel_case_keys` applies `snake_to_camel`.
  Their docstrings are swapped.
- `register_fn` returns `fn`, although its annotation says `None`.
- `inject_fn` retries after ANY `TypeError` raised by the first call. That includes a
  `TypeError` raised inside the function's body, and one raised when nothing was injected
  (in that case the function is called twice with identical arguments). It is not only a
  duplicate-argument error.

## Model

| member | source | states |
|---|---|---|
| Fun.CamelToSnake | main/libs/fun.py:36-38 | the derived key contains no upper-case ASCII letter |
| Fun.CamelToSnakeLength | main/libs/fun.py:36-38 | "" maps to ""; otherwise the output is one character longer per upper-case letter at index 1 or later |
| Fun.UnderscoreBeforeUpperAppend | main/libs/fun.py:38 | the substitution acts on each character on its own: it distributes over concatenation |
| Fun.CamelToSnakeOneWord | main/libs/fun.py:36-38 | a name with no upper-case letter after index 0 is only lower-cased, with no underscore at index 0 (`Client` becomes `client`) |
| Fun.CamelToSnakeTwoWords | main/libs/fun.py:36-38 | two words, the second capitalised, become the first lower-cased, "_", the second lower-cased (`DnsClient` becomes `dns_client`) |
| Fun.UnderscoresInAcronym | main/libs/fun.py:36-38 | every letter of a run of upper-case letters gets its own underscore (the `NS` of `DNSClient` becomes `_N_S`) |
| Fun.CamelToSnakeIdempotent | main/libs/fun.py:36-38 | applying camel_to_snake to its own output changes nothing |
| Fun.Split | main/libs/fun.py:48 | `split("_")` gives one more piece than there are underscores, and no piece contains "_" |
| Fun.SplitJoin | main/libs/fun.py:48 | joining the pieces of `split("_")` with "_" gives the input back |
| Fun.Title | main/libs/fun.py:48 | `str.title()` on ASCII: same length; a letter after a non-letter (or at the start) is upper-cased, a letter after a letter is lower-cased, other characters are kept |
| Fun.ConcatTitled | main/libs/fun.py:48 | joining titled pieces that contain no "_" gives a string without "_" |
| Fun.SnakeToCamel | main/libs/fun.py:46-48 | the output contains no "_", and "" maps to "" |
| Fun.SnakeToCamelIsCamelize | main/libs/fun.py:46-48 | snake_to_camel equals a single left-to-right pass that drops each "_" and restarts title-casing after it |
| Fun.CamelSnakeRoundTrip | main/libs/fun.py:36-48 | snake_to_camel(camel_to_snake(s)) == s for every ASCII-letter name starting upper-case |
| Fun.CamelToSnakeInjective | main/libs/fun.py:36-38 | distinct CamelCase names get distinct keys |
| Fun.Flatten | main/libs/fun.py:26-28 | the length is the sum of the inner lengths; an element is in the result iff it is in some inner sequence |
| Fun.FlattenAppend | main/libs/fun.py:26-28 | flatten preserves order: flatten(a + b) == flatten(a) + flatten(b) |
| Fun.FlatMap | main/libs/fun.py:21-23 | flatmap over an empty input is empty |
| Fun.FlatMapIsFlattenOfMap | main/libs/fun.py:21-28 | flatmap(f, xs) == flatten(map(f, xs)) |
| Fun.FilterKeys | main/libs/fun.py:31-33 | keeps exactly the keys of the mapping that are NOT in `keys`, with their values |
| Fun.FilterKeysCompose | main/libs/fun.py:31-33 | filtering by a then by b is filtering by a + b; filtering by {} keeps the mapping |
| Fun.Rekey | main/libs/fun.py:41-53 | the dict comprehension's keys are the images of the input keys, and each holds the value of the last item mapped to it |
| Fun.SnakeCaseKeys | main/libs/fun.py:41-43 | keys are the camel_to_snake images of the input keys; on a collision the later item wins |
| Fun.CamelCaseKeys | main/libs/fun.py:51-53 | keys are the snake_to_camel images of the input keys; on a collision the later item wins |
| Fun.SnakeCaseKeysOfCamelNames | main/libs/fun.py:41-43 | with distinct CamelCase keys nothing collides: every value is kept under its own key's snake_case form |
| Fun.TryExec | main/libs/fun.py:56-62 | `fn`'s value when it returns; `None` when it raises an `Exception`; a `BaseException` outside `Exception` propagates unchanged, and only such an exception escapes |
| DiRegistry.Key | main/libs/di_registry.py:23-24 | a class's key contains no upper-case ASCII letter |
| DiRegistry.CtsSubAgrees | main/libs/di_registry.py:140-144 | scanning every position for the empty match of `CTS` inserts the same underscores as the substitution in `fun.camel_to_snake`: none at index 0, one before each later upper-case letter |
| DiRegistry.CtsCamelToSnake | main/libs/di_registry.py:140-144 | the private `_camel_to_snake` computes the same function as `fun.camel_to_snake` |
| DiRegistry.MergeKwargs | main/libs/di_registry.py:64 | `{**injected, **kwargs}` has both key sets, and the caller's value wins on every shared key |
| DiRegistry.InjectedByName | main/libs/di_registry.py:60-62 | at most the key `fn_name`, present iff registered, bound to its registered value |
| DiRegistry.InjectedSingle | main/libs/di_registry.py:102-108 | at most the key `client`, present iff the class's key is registered, bound to that instance |
| DiRegistry.InjectedByTypes | main/libs/di_registry.py:109-114 | the keys are exactly the classes' keys that are registered, each bound to its registered value |
| DiRegistry.CallInjectingName | main/libs/di_registry.py:59-70 | one call with the merged kwargs; a second call, with the caller's own arguments, exactly when the first raised TypeError; the last call's outcome is returned |
| DiRegistry.CallInjectingTypes | main/libs/di_registry.py:101-117 | exactly one call: with one class, `client` merged under the caller's kwargs; with several, the per-class keys merged under them |
| DiRegistry.InjectFn | main/libs/di_registry.py:50-56 | an empty name returns `fn` itself; otherwise `fn` is wrapped |
| DiRegistry.Inject | main/libs/di_registry.py:96-98 | no classes returns `fn` itself; otherwise `fn` is wrapped |
| DiRegistry.Invoke | main/libs/di_registry.py:53-117 | a decorated call keeps the positional arguments and every caller keyword value, and returns the outcome of the wrapped function's last call |
| DiRegistry.InjectFnEmptyName | main/libs/di_registry.py:55-56 | with an empty name the call reaches `fn` unchanged, once |
| DiRegistry.InjectFnFirstCall | main/libs/di_registry.py:60-64 | the first call gets `registry[name]` under `name` unless the caller passed `name`, the caller's values win, and an unregistered name passes exactly the caller's arguments |
| DiRegistry.InjectFnRetry | main/libs/di_registry.py:63-70 | a TypeError from the first call causes exactly one retry, with the caller's original arguments, whose outcome is returned even if it raises |
| DiRegistry.InjectNoClasses | main/libs/di_registry.py:97-98 | `inject()` leaves calls unchanged |
| DiRegistry.InjectOneClass | main/libs/di_registry.py:102-117 | with one class the only injected keyword is `client`, bound to the class's instance when registered; a caller-supplied `client` wins |
| DiRegistry.InjectManyClasses | main/libs/di_registry.py:109-117 | with several classes the injected keys are exactly the registered class keys, each with its instance; the caller's keywords win |
| DiRegistry.InjectSecondMissing | main/libs/di_registry.py:109-117 | with only the first of two classes registered, only its key is injected, the call still happens once, and the caller's keywords are merged over it |
| DiRegistry.Registry.constructor | main/libs/di_registry.py:13 | the registry starts empty |
| DiRegistry.Registry.Register | main/libs/di_registry.py:27-30 | the class's key maps to the instance (last write wins); every other entry is unchanged |
| DiRegistry.Registry.RegisterFn | main/libs/di_registry.py:33-36 | stores `fn` under exactly `name`, untransformed, and returns `fn` |
| DiRegistry.Registry.Deregister | main/libs/di_registry.py:39-43 | the class's key is absent afterwards and nothing else changes; an absent key leaves the registry identical |
| DiRegistry.Registry.Client | main/libs/di_registry.py:124-137 | the block sees the instance registered and receives it; on normal exit `on_close(instance)` runs once, then the key is removed; if the block or `on_close` raises, nothing after it runs and the entry stays |
| DiRegistry.Registry.ClientDefault | main/libs/di_registry.py:124-137 | with the default `on_close` (`_default_close`, which does nothing), a block that returns normally always ends with the key absent, after the four events register, yield, close and deregister; a block that raises leaves the entry in place |

## Left out

- `main/libs/logs.py`, `main/libs/aws.py`, `main/__main__.py` and `main/models.py` are not part
  of this model. They are logging configuration, cloud-client construction and pagination,
  command-line plumbing, and a validated record.
- The diagnostic `print` calls in `inject_fn`, `inject` and `try_exec` are not modelled. The
  model assumes that writing to standard output succeeds. The call in `inject_fn` prints a
  constant message. The other two format values, which can raise; the next two lines say what
  the model then assumes.
- Fun.TryExec: assumes that `fn` has a `__name__` attribute and that formatting the exception
  `e` does not raise. A callable without `__name__` (a `functools.partial`, an instance with
  `__call__`) makes the handler's message raise `AttributeError` inside the `except`, so
  `try_exec` raises. The model returns `Returned(None)` there.
- DiRegistry.CallInjectingTypes: assumes that formatting `args`, `kwargs` and the injected
  kwargs for the message of `inject`'s `print` does not raise. A `__repr__` that raises would
  stop the call before `fn` runs. The model always calls `fn` once.
- Python's argument binding is not modelled: how positional arguments bind, and what exactly
  makes the wrapped function raise `TypeError`. The wrapped function's outcome is a given
  function of the call it receives.
- `functools.wraps` metadata copying is not modelled.
- The generator mechanics of `contextmanager` are folded into one method. It runs register,
  the block, `on_close` and deregister in order. An exception thrown into the generator at the
  `yield` is the block's `Raised` outcome.
- `on_close` cannot change the registry in the model. The block can.
- `str.lower()`, `str.title()` and the regex class `[A-Z]` are modelled on ASCII only. Unicode
  case mappings (non-ASCII letters, characters whose case mapping changes length) are not
  modelled.
- `flatten` and `flatmap` return lazy generators that can be consumed once. The model returns
  the whole sequence.
- The registry holds values of one type parameter `V`; Python holds arbitrary objects.
  Identity of objects is value equality in the model.
- The module-level registry is a single object; concurrent access is not modelled (the source
  has no locking and assumes one thread).
- Python dicts keep insertion order; the dicts the model builds are `map`s, which have none.
  The order is lost for `filter_keys` (the mapping's order), `snake_case_keys` and
  `camel_case_keys` (the order in which each new key first appears) and `inject`'s injected
  kwargs (the order of the classes).
- A wrapped `fn` is a function of its call only. The model does not capture a `fn` that changes
  the registry while it runs. It also does not capture a `fn` that behaves differently on
  `inject_fn`'s retry than it would on a first call with the same arguments.
- In Python, `try_exec` gives the same result (`None`) for a function that returns `None` and
  for one that raises. The model keeps the two apart (`Some(v)` versus `None`).

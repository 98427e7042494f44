# Synchronous-access bridge of hypha-services, in Dafny

This project models the bridge in `test-hypha-sync.py` of hypha-services. The bridge
exposes the object graph of an asynchronous hypha RPC client as a plain blocking
object. It has three parts:

- `_encode_callables` rebuilds a value graph and replaces every callable with an
  adapter.
- `convert_async_to_sync` and `convert_sync_to_async` are the two directional
  adapters. Each one encodes the values it passes on with the *opposite* adapter.
- `SyncHyphaServer` connects, encodes the server graph async-to-sync, and copies
  each top-level entry into its attributes.

Files:

- `values.dfy` (module `Values`) holds the graph: scalars, dicts with string keys,
  lists, tuples and callables. A callable is an original function (`Orig`) or an
  adapter tagged `ToSync` or `ToAsync` around another callable. The file also
  defines navigation along a path (`At`), the set of paths (`Paths`), the paths to
  callables (`CallablePaths`), the nesting depth, and the outcome of a call
  (`Returned` or `Raised`).
- `encode.dfy` (module `CallableProxy`) holds `_encode_callables` as `Encode` and
  the shape-preservation lemmas. The `wrap` argument is any function on
  callables, as in the source.
- `adapters.dfy` (module `Adapters`) holds `wrapped_sync` and `wrapped_async`.
  They are mutually recursive functions over an oracle `call`, which gives the
  outcome of invoking an original callable. Invoking a `ToSync` adapter is
  `wrapped_sync`; invoking a `ToAsync` adapter is `wrapped_async`.
  `WrapToSync` and `WrapToAsync` are the two `wrap` arguments the source
  passes to `_encode_callables` (`convert_async_to_sync` and
  `convert_sync_to_async`): each only puts its tag around a callable.
- `facade.dfy` (module `Facade`) holds the class `SyncHyphaServer` and
  `connect_to_server_sync`. The attributes that `setattr` fills are a
  `map<string, Value>` field, filled by a loop over the encoded graph's keys.

## Model

| member | source | states |
|---|---|---|
| CallableProxy.Encode | test-hypha-sync.py:42-50 | A dict stays a dict with the same keys. A list or tuple becomes a list of the same length. A callable stays a callable. A scalar comes back unchanged. The result contains no tuple at any depth. |
| CallableProxy.EncodeAt | test-hypha-sync.py:42-50 | Encoding commutes with navigation: for every path, the output has a node there exactly when the input does, and it is the encoding of the input's node. |
| CallableProxy.EncodeDict | test-hypha-sync.py:43-44 | An encoded dict has exactly the original key set. Each key is bound to the encoding of its original value. |
| CallableProxy.EncodeSequence | test-hypha-sync.py:45-46 | A list or a tuple becomes a list of the same length. Element i is the encoding of element i, so order is kept and tuples become lists. |
| CallableProxy.EncodeLeaves | test-hypha-sync.py:47-50 | A callable `f` at a path becomes `wrap(f)` at the same path. A scalar at a path is still there. A callable sits at a path after encoding exactly when one sat there before. |
| CallableProxy.EncodePaths | test-hypha-sync.py:42-50 | The encoded graph has exactly the input's set of paths. Keys, lengths and nesting are all the same. |
| CallableProxy.EncodeCallablePaths | test-hypha-sync.py:47-48 | Callables occupy exactly the same paths before and after encoding. |
| CallableProxy.EncodePreservesCountAndDepth | test-hypha-sync.py:42-50 | The number of callable leaves and the nesting depth are unchanged. |
| CallableProxy.EncodeIdentity | test-hypha-sync.py:45-50 | With a wrap that returns its argument, encoding equals the reference definition `Untuple`: the same graph with every tuple turned into a list. |
| CallableProxy.EncodeFixesPlainValues | test-hypha-sync.py:42-50 | A graph with no tuples and no callables is returned unchanged, whatever the wrap. |
| CallableProxy.EncodeCompose | test-hypha-sync.py:42-50 | Encoding with one wrap and then another equals encoding once with the composed wrap. |
| Adapters.EncodeArgs | test-hypha-sync.py:29 | `wrapped_sync` turns its positional arguments into a list of the same length. Element i is argument i encoded sync-to-async. |
| Adapters.EncodeKwargs | test-hypha-sync.py:32 | `wrapped_sync` keeps the keyword names. Each keyword argument is encoded sync-to-async. |
| Adapters.SyncCallTagsArgumentsToAsync | test-hypha-sync.py:27-32 | Every callable that a blocking call passes to the asynchronous callee, at any depth in args or kwargs, is tagged to-async. It wraps the callable the caller put at the same path. The encoded args and kwargs have exactly the paths of the originals. |
| Adapters.SyncCallReturnsRaw | test-hypha-sync.py:27-37 | A blocking call ends with the awaited callable's outcome on the encoded arguments, value or error. The result is not encoded again. |
| Adapters.AsyncCallOutcome | test-hypha-sync.py:8-21 | An awaitable call raises exactly when the synchronous callable raises, and with the same error. When the synchronous callable returns `r`, the call returns `r` encoded async-to-sync. |
| Adapters.AsyncCallTagsResultToSync | test-hypha-sync.py:19-21 | When an awaitable call returns, every callable nested in its result is tagged to-sync. Each wraps the callable the synchronous function returned at that path, and the result has the raw result's paths. |
| Adapters.AsyncCallOfPlainResult | test-hypha-sync.py:19-21 | When the synchronous callable returns a value with no callables and no tuples, the asynchronous side receives exactly that value. |
| Adapters.CallbackRoundTrip | test-hypha-sync.py:7-39 | A callback placed at any path of the args or kwargs of a blocking call reaches the remote side at that path, tagged to-async. When the remote side invokes it, the caller's original function runs on the arguments it is given, and its plain result comes back unchanged. |
| Facade.SyncHyphaServer.constructor | test-hypha-sync.py:53-57 | A new facade has no loop, no thread, no server and no connected attributes. |
| Facade.SyncHyphaServer.StartLoop | test-hypha-sync.py:69-72 | Starting the loop leaves `self.loop` running and changes nothing else. |
| Facade.SyncHyphaServer.ConnectToServer | test-hypha-sync.py:59-67 | Runs only once the loop is running. A connect error propagates and changes nothing. Otherwise `self.server` is the graph. If the encoded graph is not a dict, the step fails with the assertion's message. If it is a dict, the new attributes are the old ones overridden by every entry of the graph encoded async-to-sync. |
| Facade.ConnectToServerSync | test-hypha-sync.py:75-88 | A fresh facade starts its loop before connecting, since connecting requires a running loop. The call succeeds exactly when the client connects and the graph is a dict. On success `server` is the graph and the attribute set is exactly the graph's keys, each bound to its value encoded async-to-sync, so a top-level callable `f` becomes `ToSync(f)`. Errors propagate unchanged. |

## Left out

- Adapters.Invoke: does not record whether an original callable is synchronous or asynchronous, so it gives an ordinary outcome to calls that the source cannot complete. Three cases are affected. `await` on a synchronous callable's result raises `TypeError` (line 35), for example a plain function returned by a callback and wrapped to-sync at line 20. A `wrapped_sync` awaited on the loop thread blocks that loop on its own `.result()` (line 37) and never returns. An asynchronous function run by `wrapped_async` (line 13) yields an un-awaited coroutine. The model is faithful only when to-sync adapters wrap asynchronous callables and to-async adapters wrap synchronous ones.
- CallableProxy.Encode: has no recursion limit. For a graph nested deeper than Python's recursion limit (about 1000 levels), `_encode_callables` raises `RecursionError`, but `Encode` returns the encoded graph.
- Threads, the event loop and the executor are left out. This covers the loop thread, `run_forever`, the busy-wait for the loop to start, `run_coroutine_threadsafe(...).result()`, `call_soon_threadsafe`, the loop's futures and the single-worker `ThreadPoolExecutor`. The model keeps only the value or error each call ends with. So it says nothing about blocking, about the lack of a timeout, or about the deadlock of nested synchronous callbacks on the one executor worker.
- Original callables (remote functions and user callbacks) are an oracle parameter. Their side effects are not modelled, and neither are calls they make back into the adapters they receive.
- The Python `wrapped_async` (test-hypha-sync.py:15) catches only `Exception`. A `BaseException` such as `KeyboardInterrupt` would leave the future unresolved. The model has only one kind of error, so it does not show this.
- `imjoy_rpc.hypha.connect_to_server` is network I/O. Its outcome is the `connected` parameter of `ConnectToServer`. The two `print` lines (test-hypha-sync.py:61-62) are left out. They also read `server.config`, which the model assumes succeeds.
- The `__main__` demo (test-hypha-sync.py:91-117) is left out.
- Cyclic graphs cannot be represented. In the source, a self-referencing graph recurses without bound, because `_encode_callables` has no cycle detection.
- Dict keys are strings, and dict iteration order is not modelled. A Dafny map has no order, and `setattr` does not depend on order.
- A Python object can be both a dict (or list) and callable. The source treats it as a dict (or list) because that test comes first. Such an object cannot be represented, because `Value`'s constructors are disjoint.
- `SyncHyphaServer.attrs` is kept apart from the `loop`, `thread`, `server` and `executor` fields. In Python they share one attribute namespace, so a graph key named `server` or `loop` would overwrite that field. The model does not capture this overwrite.
- The dict check is an `assert`, so `python -O` would skip it. The model always performs the check.
- `hypha_services/docker_utils.py`, `hypha_services/k8s_utils.py`, `hypha_services/main.py`, `hypha_services/ray_utils.py`, `hypha_services/utils.py`, `setup.py` and `tests/test_services.py` are not part of this model. They are container, registry and packaging glue around external libraries.
- The code has no error for a loop thread that dies: calls pending on it would never resolve. The model has none either.

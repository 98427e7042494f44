/** convert_async_to_sync and convert_sync_to_async, with the threads, the event
    loop and the executor abstracted away: what remains is the value or the error
    each invocation ends with. */
module Adapters {
  import opened Values
  import opened CallableProxy

  /** convert_async_to_sync as a wrap: tags a callable as blocking. */
  function WrapToSync(f: FnRep): FnRep
  {
    ToSync(f)
  }

  /** convert_sync_to_async as a wrap: tags a callable as awaitable. */
  function WrapToAsync(f: FnRep): FnRep
  {
    ToAsync(f)
  }

  /** What calling an original callable does: the remote client's functions and the
      caller's own callbacks are outside the model, so their outcome on given
      positional and keyword arguments is a parameter. */
  type Oracle = (nat, seq<Value>, map<string, Value>) -> Outcome

  /** Invoking a callable of the graph with positional `args` and keyword `kwargs`. */
  function Invoke(call: Oracle, f: FnRep, args: seq<Value>, kwargs: map<string, Value>): Outcome
    decreases f, 0
  {
    match f
    case Orig(id) => call(id, args, kwargs)
    case ToSync(g) => WrappedSync(call, g, args, kwargs)
    case ToAsync(g) => WrappedAsync(call, g, args, kwargs)
  }

  /** The positional arguments after wrapped_sync has encoded them: the tuple of
      arguments becomes a list, and each callable in it is wrapped sync-to-async. */
  function EncodeArgs(args: seq<Value>): (r: seq<Value>)
    ensures |r| == |args|
    ensures forall i :: 0 <= i < |args| ==> r[i] == Encode(args[i], WrapToAsync)
  {
    EncodeSequence(Tuple(args), WrapToAsync);
    Encode(Tuple(args), WrapToAsync).items
  }

  /** The keyword arguments after wrapped_sync has encoded them. */
  function EncodeKwargs(kwargs: map<string, Value>): (r: map<string, Value>)
    ensures r.Keys == kwargs.Keys
    ensures forall k :: k in kwargs ==> r[k] == Encode(kwargs[k], WrapToAsync)
  {
    EncodeDict(kwargs, WrapToAsync);
    Encode(Dict(kwargs), WrapToAsync).entries
  }

  /** wrapped_sync: encode the arguments with the opposite wrap, await the
      asynchronous callable on the loop and hand back its outcome as it is. */
  function WrappedSync(call: Oracle, asyncFunc: FnRep, args: seq<Value>, kwargs: map<string, Value>): Outcome
    decreases asyncFunc, 1
  {
    Invoke(call, asyncFunc, EncodeArgs(args), EncodeKwargs(kwargs))
  }

  /** wrapped_async: run the synchronous callable on the executor; a return value is
      encoded with the opposite wrap, a raised exception is delivered unchanged. */
  function WrappedAsync(call: Oracle, syncFunc: FnRep, args: seq<Value>, kwargs: map<string, Value>): Outcome
    decreases syncFunc, 1
  {
    match Invoke(call, syncFunc, args, kwargs)
    case Returned(result) => Returned(Encode(result, WrapToSync))
    case Raised(e) => Raised(e)
  }

  /** A callable that a blocking call hands to the asynchronous side is tagged
      to-async, wherever it sits in the arguments, and the arguments reach the
      callee with the paths they had. */
  lemma SyncCallTagsArgumentsToAsync(args: seq<Value>, kwargs: map<string, Value>, p: seq<Step>)
    ensures forall f :: At(Tuple(args), p) == Some(Fn(f)) ==> At(List(EncodeArgs(args)), p) == Some(Fn(ToAsync(f)))
    ensures forall f :: At(Dict(kwargs), p) == Some(Fn(f)) ==> At(Dict(EncodeKwargs(kwargs)), p) == Some(Fn(ToAsync(f)))
    ensures forall g :: At(List(EncodeArgs(args)), p) == Some(Fn(g)) ==> g.ToAsync?
    ensures forall g :: At(Dict(EncodeKwargs(kwargs)), p) == Some(Fn(g)) ==> g.ToAsync?
    ensures Paths(List(EncodeArgs(args))) == Paths(Tuple(args))
    ensures Paths(Dict(EncodeKwargs(kwargs))) == Paths(Dict(kwargs))
  {
    assert Encode(Tuple(args), WrapToAsync) == List(EncodeArgs(args));
    assert Encode(Dict(kwargs), WrapToAsync) == Dict(EncodeKwargs(kwargs));
    EncodeLeaves(Tuple(args), WrapToAsync, p);
    EncodeLeaves(Dict(kwargs), WrapToAsync, p);
    EncodeAt(Tuple(args), WrapToAsync, p);
    EncodeAt(Dict(kwargs), WrapToAsync, p);
    EncodePaths(Tuple(args), WrapToAsync);
    EncodePaths(Dict(kwargs), WrapToAsync);
  }

  /** A blocking call returns whatever the awaited callable ends with, value or
      error, without encoding it again. */
  lemma SyncCallReturnsRaw(call: Oracle, asyncFunc: FnRep, args: seq<Value>, kwargs: map<string, Value>)
    ensures Invoke(call, ToSync(asyncFunc), args, kwargs)
         == Invoke(call, asyncFunc, EncodeArgs(args), EncodeKwargs(kwargs))
  {
  }

  /** An awaitable call of a synchronous callable that returns `r` yields `r` with
      every nested callable tagged to-sync; one that raises yields the same error. */
  lemma AsyncCallOutcome(call: Oracle, syncFunc: FnRep, args: seq<Value>, kwargs: map<string, Value>)
    ensures Invoke(call, ToAsync(syncFunc), args, kwargs).Raised?
        <==> Invoke(call, syncFunc, args, kwargs).Raised?
    ensures Invoke(call, syncFunc, args, kwargs).Raised? ==>
            Invoke(call, ToAsync(syncFunc), args, kwargs) == Invoke(call, syncFunc, args, kwargs)
    ensures Invoke(call, syncFunc, args, kwargs).Returned? ==>
            Invoke(call, ToAsync(syncFunc), args, kwargs)
              == Returned(Encode(Invoke(call, syncFunc, args, kwargs).value, WrapToSync))
  {
  }

  /** Every callable nested in what an awaitable call returns is tagged to-sync, at
      the path where the synchronous callable returned an original callable. */
  lemma AsyncCallTagsResultToSync(call: Oracle, syncFunc: FnRep, args: seq<Value>, kwargs: map<string, Value>, p: seq<Step>)
    requires Invoke(call, syncFunc, args, kwargs).Returned?
    ensures Invoke(call, ToAsync(syncFunc), args, kwargs).Returned?
    ensures var result := Invoke(call, ToAsync(syncFunc), args, kwargs).value;
            var raw := Invoke(call, syncFunc, args, kwargs).value;
            && (forall g :: At(result, p) == Some(Fn(g)) ==> g.ToSync?)
            && (forall f :: At(raw, p) == Some(Fn(f)) ==> At(result, p) == Some(Fn(ToSync(f))))
            && Paths(result) == Paths(raw)
  {
    var raw := Invoke(call, syncFunc, args, kwargs).value;
    EncodeAt(raw, WrapToSync, p);
    EncodeLeaves(raw, WrapToSync, p);
    EncodePaths(raw, WrapToSync);
  }

  /** A synchronous callback that returns a plain value (no callables, no tuples)
      is seen by the asynchronous side to return exactly that value. */
  lemma AsyncCallOfPlainResult(call: Oracle, syncFunc: FnRep, args: seq<Value>, kwargs: map<string, Value>)
    requires Invoke(call, syncFunc, args, kwargs).Returned?
    requires TupleFree(Invoke(call, syncFunc, args, kwargs).value)
    requires CallableFree(Invoke(call, syncFunc, args, kwargs).value)
    ensures Invoke(call, ToAsync(syncFunc), args, kwargs) == Invoke(call, syncFunc, args, kwargs)
  {
    EncodeFixesPlainValues(Invoke(call, syncFunc, args, kwargs).value, WrapToSync);
  }

  /** Round trip through both adapters: a callback placed anywhere in the
      arguments of a blocking call reaches the remote side, at the same path,
      tagged to-async; when the remote side invokes it, the caller's original
      function runs on the arguments it is given, and a plain result it returns
      reaches the remote side unchanged. */
  lemma CallbackRoundTrip(call: Oracle, callback: nat, args: seq<Value>, kwargs: map<string, Value>, p: seq<Step>,
                          cbArgs: seq<Value>, cbKwargs: map<string, Value>)
    requires At(Tuple(args), p) == Some(Fn(Orig(callback))) || At(Dict(kwargs), p) == Some(Fn(Orig(callback)))
    requires call(callback, cbArgs, cbKwargs).Returned?
    requires TupleFree(call(callback, cbArgs, cbKwargs).value)
    requires CallableFree(call(callback, cbArgs, cbKwargs).value)
    ensures At(Tuple(args), p) == Some(Fn(Orig(callback))) ==>
              At(List(EncodeArgs(args)), p) == Some(Fn(ToAsync(Orig(callback))))
    ensures At(Dict(kwargs), p) == Some(Fn(Orig(callback))) ==>
              At(Dict(EncodeKwargs(kwargs)), p) == Some(Fn(ToAsync(Orig(callback))))
    ensures Invoke(call, ToAsync(Orig(callback)), cbArgs, cbKwargs) == call(callback, cbArgs, cbKwargs)
  {
    SyncCallTagsArgumentsToAsync(args, kwargs, p);
    AsyncCallOfPlainResult(call, Orig(callback), cbArgs, cbKwargs);
  }
}

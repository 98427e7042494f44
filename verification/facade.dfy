/** SyncHyphaServer: the blocking facade whose attributes are the server graph's
    top-level entries, each callable wrapped async-to-sync. */
module Facade {
  import opened Values
  import opened CallableProxy
  import opened Adapters

  /** The message of the assertion that rejects a server graph that is not a dict. */
  const NotDictMessage: string := "The server object must be a dict"

  /** What a coroutine that returns nothing ends with. */
  const NothingReturned: Outcome := Returned(Scalar(NoneAtom))

  class SyncHyphaServer {
    /** Whether `self.loop` holds an event loop that is running. */
    var loopRunning: bool
    /** Whether `self.thread` holds the thread that runs the loop. */
    var threadStarted: bool
    /** `self.server`: the graph the client's connect returned, once it has. */
    var server: Option<Value>
    /** The attributes that connecting sets with `setattr`, by name. */
    var attrs: map<string, Value>

    constructor ()
      ensures !loopRunning && !threadStarted
      ensures server == None && attrs == map[]
    {
      loopRunning, threadStarted := false, false;
      server := None;
      attrs := map[];
    }

    /** _start_loop: install a fresh event loop in `self.loop` and run it. */
    method StartLoop()
      modifies this
      ensures loopRunning
      ensures threadStarted == old(threadStarted)
      ensures server == old(server) && attrs == old(attrs)
    {
      loopRunning := true;
    }

    /** _connect_to_server, run as a coroutine on the running loop and given the
        outcome of the client's connect: a raised
        error propagates; otherwise the graph becomes `self.server`, is encoded
        async-to-sync, must be a dict, and each of its entries is set as an
        attribute (overwriting one of the same name, keeping the others). */
    method ConnectToServer(connected: Outcome) returns (res: Outcome)
      requires loopRunning
      modifies this
      ensures loopRunning == old(loopRunning) && threadStarted == old(threadStarted)
      ensures connected.Raised? ==> res == connected && server == old(server) && attrs == old(attrs)
      ensures connected.Returned? ==> server == Some(connected.value)
      ensures connected.Returned? && !connected.value.Dict? ==>
                res == Raised(NotDictMessage) && attrs == old(attrs)
      ensures connected.Returned? && connected.value.Dict? ==>
                res == NothingReturned &&
                attrs == old(attrs) + Encode(connected.value, WrapToSync).entries
    {
      if connected.Raised? {
        return connected;
      }
      server := Some(connected.value);
      var obj := Encode(connected.value, WrapToSync);
      if !obj.Dict? {
        return Raised(NotDictMessage);
      }
      var entries := obj.entries;
      var pending := entries.Keys;
      while pending != {}
        invariant pending <= entries.Keys
        invariant attrs.Keys == old(attrs).Keys + (entries.Keys - pending)
        invariant forall k :: k in entries && k !in pending ==> attrs[k] == entries[k]
        invariant forall k :: k in old(attrs) && k !in entries ==> attrs[k] == old(attrs)[k]
        invariant forall k :: k in old(attrs) && k in pending ==> attrs[k] == old(attrs)[k]
        invariant loopRunning == old(loopRunning) && threadStarted == old(threadStarted)
        invariant server == Some(connected.value)
        decreases pending
      {
        var k :| k in pending;
        attrs := attrs[k := entries[k]];
        pending := pending - {k};
      }
      return NothingReturned;
    }
  }

  /** connect_to_server_sync: a fresh facade starts its loop thread, waits for the
      loop to run, and connects. The call fails with the connect step's error and
      otherwise hands back a facade whose attributes are exactly the server graph's
      keys, each bound to the entry encoded async-to-sync. */
  method ConnectToServerSync(connected: Outcome) returns (facade: SyncHyphaServer, res: Outcome)
    ensures fresh(facade)
    ensures facade.loopRunning && facade.threadStarted
    ensures res.Returned? <==> connected.Returned? && connected.value.Dict?
    ensures connected.Raised? ==> res == connected
    ensures connected.Returned? && !connected.value.Dict? ==> res == Raised(NotDictMessage)
    ensures res.Returned? ==>
              && facade.server == Some(connected.value)
              && facade.attrs.Keys == connected.value.entries.Keys
              && (forall k :: k in facade.attrs ==> facade.attrs[k] == Encode(connected.value.entries[k], WrapToSync))
              && (forall k, f :: k in facade.attrs && connected.value.entries[k] == Fn(f) ==> facade.attrs[k] == Fn(ToSync(f)))
  {
    facade := new SyncHyphaServer();
    if !facade.loopRunning {
      facade.threadStarted := true;
      facade.StartLoop();
    }
    res := facade.ConnectToServer(connected);
    if res.Returned? {
      EncodeDict(connected.value.entries, WrapToSync);
    }
  }
}

// An sbus connection: its table of managed object paths, the transport it
// claims those paths on, and the dispatcher the transport calls for every
// incoming method call. The transport is reduced to its answers (`bus`)
// and to a ghost log of what it was asked to do.
module Sbus {
  import opened SbusTypes
  import opened ObjectPath
  import opened PathTable

  // The method table of the standard introspection interface (sbus_introspect_vtable).
  const IntrospectVtable: Vtable := Vtable(0, InterfaceMeta(IntrospectableName, [MethodMeta("Introspect", 1, 0)]))

  // ---------------------------------------------------------------------
  // The path claiming policy (sbus_conn_register_path)

  // What the transport is asked when `path` is claimed while the table is `t`.
  function ClaimEvents(t: Table, path: string): (ev: seq<Event>)
    ensures IsSubtree(path) ==>
      |ev| >= 1 && ev[|ev| - 1] == RegisterFallback(BasePath(path))
      && (UnregisterObjectPath(BasePath(path)) in ev <==> BasePath(path) in t)
      && forall e :: e in ev ==> !e.TryRegisterObjectPath?
    // At most one unregistration, then the fallback claim, and nothing else.
    ensures IsSubtree(path) ==> |ev| == (if BasePath(path) in t then 2 else 1)
    ensures !IsSubtree(path) ==> ev == [TryRegisterObjectPath(path)]
  {
    if IsSubtree(path) then
      var reg := BasePath(path);
      (if reg in t then [UnregisterObjectPath(reg)] else []) + [RegisterFallback(reg)]
    else [TryRegisterObjectPath(path)]
  }

  // What claiming `path` returns: a fallback claim either succeeds or is out of
  // memory; an exact claim also succeeds when the path is already in use.
  function ClaimStatus(bus: Bus, path: string): (r: Errno)
    ensures r == EOK || r == ENOMEM
    ensures IsSubtree(path) ==> (r == EOK <==> bus.registerFallback(BasePath(path)))
    ensures !IsSubtree(path) ==>
      (r == EOK <==> bus.tryRegister(path).ok || bus.tryRegister(path).errorName == Some(ObjectPathInUseError))
  {
    if IsSubtree(path) then
      if bus.registerFallback(BasePath(path)) then EOK else ENOMEM
    else
      var reply := bus.tryRegister(path);
      if reply.errorName == Some(ObjectPathInUseError) then EOK
      else if !reply.ok then ENOMEM
      else EOK
  }

  // The claims made by re-registering the keys in `order`, stopping at the first failure.
  function ClaimAll(t: Table, bus: Bus, order: seq<string>): seq<Event>
  {
    if |order| == 0 then []
    else if ClaimStatus(bus, order[0]) != EOK then ClaimEvents(t, order[0])
    else ClaimEvents(t, order[0]) + ClaimAll(t, bus, order[1..])
  }

  function Releases(order: seq<string>): (ev: seq<Event>)
    ensures |ev| == |order|
    ensures forall i :: 0 <= i < |order| ==> ev[i] == UnregisterObjectPath(BasePath(order[i]))
  {
    if |order| == 0 then [] else [UnregisterObjectPath(BasePath(order[0]))] + Releases(order[1..])
  }

  lemma ReleasesSnoc(order: seq<string>, key: string)
    ensures Releases(order + [key]) == Releases(order) + [UnregisterObjectPath(BasePath(key))]
  {
    var ev := Releases(order + [key]);
    assert |ev| == |order| + 1;
    assert forall i :: 0 <= i < |order| ==> ev[i] == Releases(order)[i];
  }

  predicate Distinct(s: seq<string>)
  {
    forall i, j :: 0 <= i < j < |s| ==> s[i] != s[j]
  }

  // Part way through visiting `keys`: `order` lists, once each, the keys
  // already visited, and `remaining` holds the others.
  ghost predicate Swept(keys: set<string>, remaining: set<string>, order: seq<string>)
  {
    && remaining <= keys
    && Distinct(order)
    && (forall k :: k in order ==> k in keys && k !in remaining)
    && (forall k :: k in keys ==> k in remaining || k in order)
  }

  lemma SweepStep(keys: set<string>, remaining: set<string>, order: seq<string>, key: string)
    requires Swept(keys, remaining, order) && key in remaining
    ensures Swept(keys, remaining - {key}, order + [key])
  {
    assert key !in order;
  }

  // Part way through tearing down `orig`: `order` lists, once each, the keys
  // already removed, and `rest` holds the others.
  ghost predicate Drained(orig: Table, rest: Table, order: seq<string>)
  {
    && Distinct(order)
    && (forall k :: k in order <==> k in orig && k !in rest)
    && (forall k :: k in rest ==> k in orig)
  }

  lemma DrainStep(orig: Table, rest: Table, order: seq<string>, key: string)
    requires Drained(orig, rest, order) && key in rest
    ensures Drained(orig, rest - {key}, order + [key])
  {
    assert key !in order;
  }

  // ---------------------------------------------------------------------
  // Registration (sbus_conn_register_iface), as a function of the state

  datatype Registration = Registration(status: Errno, table: Table, events: seq<Event>)

  // Add the interface; for a new key, claim the path and then add the introspection interface.
  function Register(t: Table, bus: Bus, path: string, iface: Interface): Registration
  {
    match AddIface(t, path, iface)
    case Duplicate => Registration(EEXIST, t, [])
    case Appended(t1) => Registration(EOK, t1, [])
    case Created(t1) =>
      var ev := ClaimEvents(t1, path);
      var st := ClaimStatus(bus, path);
      if st != EOK then Registration(st, t1, ev)
      else
        var r2 := AddIface(t1, path, Interface(path, IntrospectVtable, ConnectionData));
        if r2.Duplicate? then Registration(EEXIST, t1, ev)
        else Registration(EOK, r2.t, ev)
  }

  // The outcomes of one registration.
  lemma RegisterOutcomes(t: Table, bus: Bus, path: string, iface: Interface)
    requires TableUnique(t)
    ensures var out := Register(t, bus, path, iface);
      && TableUnique(out.table)
      && (path in t ==> out.events == [])
      && (path in t && ListLookup(t[path], Name(iface)).Some? ==> out.status == EEXIST && out.table == t)
      && (path in t && ListLookup(t[path], Name(iface)).None? ==> out.status == EOK && out.table == t[path := t[path] + [iface]])
      && (path !in t ==> out.events == ClaimEvents(t, path))
      && (path !in t && ClaimStatus(bus, path) != EOK ==> out.status == ClaimStatus(bus, path) && out.table == t[path := [iface]])
      && (path !in t && ClaimStatus(bus, path) == EOK && Name(iface) != IntrospectableName ==>
            out.status == EOK && out.table == t[path := [iface, Interface(path, IntrospectVtable, ConnectionData)]])
      && (path !in t && ClaimStatus(bus, path) == EOK && Name(iface) == IntrospectableName ==>
            out.status == EEXIST && out.table == t[path := [iface]])
  {
    var out := Register(t, bus, path, iface);
    AddKeepsUnique(t, path, iface);
    if path !in t {
      var t1 := t[path := [iface]];
      var intro := Interface(path, IntrospectVtable, ConnectionData);
      AddKeepsUnique(t1, path, intro);
      if IsSubtree(path) {
        BasePathShape(path);
        assert BasePath(path) in t1 <==> BasePath(path) in t;
      }
      assert ClaimEvents(t1, path) == ClaimEvents(t, path);
      assert t1[path] + [intro] == [iface, intro];
      assert ListLookup([iface], IntrospectableName).Some? <==> Name(iface) == IntrospectableName;
    }
  }

  // A registration on a new key claims it exactly as the policy says and, on
  // success, leaves both the interface and the introspection interface on the key.
  lemma RegisterNewKey(t: Table, bus: Bus, path: string, iface: Interface)
    requires TableUnique(t)
    requires path !in t
    ensures var out := Register(t, bus, path, iface);
      && path in out.table
      && out.table[path][0] == iface
      && (out.status == EOK ==> ListLookup(out.table[path], IntrospectableName).Some?)
      && (forall k :: k in t ==> k in out.table && out.table[k] == t[k])
  {
    RegisterOutcomes(t, bus, path, iface);
  }

  // ---------------------------------------------------------------------
  // Dispatch, as functions of the table and the message

  // sbus_meta_find_method: the method of that name in the interface's meta table.
  function FindMethod(meta: InterfaceMeta, name: string): (r: Option<MethodMeta>)
    ensures r.Some? ==> r.value in meta.methods && r.value.name == name
    ensures r.None? <==> forall m :: m in meta.methods ==> m.name != name
    decreases |meta.methods|
  {
    if |meta.methods| == 0 then None
    else if meta.methods[0].name == name then Some(meta.methods[0])
    else FindMethod(InterfaceMeta(meta.name, meta.methods[1..]), name)
  }

  datatype Route = NoHandler | Target(iface: Interface, methodMeta: MethodMeta)

  // The interface and method an incoming call resolves to, if it has a handler.
  function RouteOf(t: Table, msg: Message): (r: Route)
    ensures r.Target? ==> PathTable.LookupIface(t, msg.path, msg.iface) == Some(r.iface)
    ensures r.Target? ==> FindMethod(r.iface.vtable.meta, msg.member) == Some(r.methodMeta) && r.methodMeta.vtableOffset != 0
    ensures r.NoHandler? <==>
      (PathTable.LookupIface(t, msg.path, msg.iface).None?
       || FindMethod(PathTable.LookupIface(t, msg.path, msg.iface).value.vtable.meta, msg.member).None?
       || FindMethod(PathTable.LookupIface(t, msg.path, msg.iface).value.vtable.meta, msg.member).value.vtableOffset == 0)
  {
    match PathTable.LookupIface(t, msg.path, msg.iface)
    case None => NoHandler
    case Some(iface) =>
      match FindMethod(iface.vtable.meta, msg.member)
      case None => NoHandler
      case Some(m) => if m.vtableOffset == 0 then NoHandler else Target(iface, m)
  }

  // Whether the dispatcher goes on to resolve the caller: a handler and both allocations.
  predicate Suspends(route: Route, requestAllocated: bool, lookupStarted: bool)
  {
    route.Target? && requestAllocated && lookupStarted
  }

  function DispatchEvents(route: Route, msg: Message, requestAllocated: bool, lookupStarted: bool): seq<Event>
  {
    if route.NoHandler? then [ErrorReply(msg, UnknownMethodError)]
    else if requestAllocated && lookupStarted then [SenderIdRequested(msg.sender)]
    else []
  }

  function DispatchResult(route: Route, requestAllocated: bool, lookupStarted: bool): HandlerResult
  {
    if route.Target? && !(requestAllocated && lookupStarted) then NeedMemory else Handled
  }

  // What the continuation does once the caller's identity is known.
  function CompletionEvents(iface: Interface, methodMeta: MethodMeta, msg: Message, caller: CallerId): seq<Event>
  {
    match caller
    case ResolveFailed(_) => [ErrorReply(msg, FailedError)]
    case Resolved(_) => [Invoke(msg, VtableSlot(iface.vtable, methodMeta.vtableOffset), iface.instanceData, methodMeta.invoker)]
  }

  function CountTerminal(ev: seq<Event>): nat
  {
    if |ev| == 0 then 0 else (if Terminal(ev[0]) then 1 else 0) + CountTerminal(ev[1..])
  }

  // The whole life of one incoming call: every path ends in exactly one reply
  // or handler invocation, except an allocation failure, which ends in none.
  lemma DispatchAnswersOnce(t: Table, msg: Message, requestAllocated: bool, lookupStarted: bool, caller: CallerId)
    ensures var route := RouteOf(t, msg);
      var ev := DispatchEvents(route, msg, requestAllocated, lookupStarted)
        + (if Suspends(route, requestAllocated, lookupStarted) then CompletionEvents(route.iface, route.methodMeta, msg, caller) else []);
      && CountTerminal(ev) == (if DispatchResult(route, requestAllocated, lookupStarted) == NeedMemory then 0 else 1)
      && (route.NoHandler? ==> ev == [ErrorReply(msg, UnknownMethodError)])
      && (Suspends(route, requestAllocated, lookupStarted) && caller.ResolveFailed? ==>
            ev == [SenderIdRequested(msg.sender), ErrorReply(msg, FailedError)])
      && (Suspends(route, requestAllocated, lookupStarted) && caller.Resolved? ==>
            ev[|ev| - 1].Invoke? && ev[|ev| - 1].data == route.iface.instanceData)
  {
    var route := RouteOf(t, msg);
    if Suspends(route, requestAllocated, lookupStarted) {
      var ev := [SenderIdRequested(msg.sender)] + CompletionEvents(route.iface, route.methodMeta, msg, caller);
      assert CountTerminal(ev) == CountTerminal(ev[1..]);
      assert CountTerminal(ev[1..]) == 1 + CountTerminal(ev[2..]);
    } else if route.NoHandler? {
      assert CountTerminal([ErrorReply(msg, UnknownMethodError)]) == 1 + CountTerminal([]);
    }
  }

  // ---------------------------------------------------------------------
  // The connection

  class Connection {
    var managedPaths: Table
    ghost var log: seq<Event>
    const bus: Bus

    ghost predicate Valid()
      reads this
    {
      TableUnique(managedPaths)
    }

    // sbus_opath_hash_init: a connection starts with an empty table.
    constructor (bus: Bus)
      ensures Valid()
      ensures managedPaths == map[] && log == [] && this.bus == bus
    {
      managedPaths := map[];
      log := [];
      this.bus := bus;
    }

    // sbus_opath_hash_add_iface: append the interface to the key's list, or start a list.
    method AddIface(path: string, iface: Interface) returns (r: Errno, pathKnown: bool)
      requires Valid()
      modifies this`managedPaths
      ensures Valid()
      ensures var out := PathTable.AddIface(old(managedPaths), path, iface);
        && (out.Duplicate? ==> r == EEXIST && managedPaths == old(managedPaths))
        && (out.Appended? ==> r == EOK && pathKnown && managedPaths == out.t)
        && (out.Created? ==> r == EOK && !pathKnown && managedPaths == out.t)
    {
      AddKeepsUnique(managedPaths, path, iface);
      if path in managedPaths {
        pathKnown := true;
        var list := managedPaths[path];
        if ListLookup(list, Name(iface)).Some? {
          return EEXIST, pathKnown;
        }
        managedPaths := managedPaths[path := list + [iface]];
        return EOK, pathKnown;
      }
      pathKnown := false;
      managedPaths := managedPaths[path := [iface]];
      r := EOK;
    }

    // sbus_opath_hash_has_path: an exact key, without walking up to parent subtrees.
    function HasPath(path: string): (b: bool)
      reads this
      ensures b <==> path in managedPaths
    {
      path in managedPaths
    }

    // sbus_opath_hash_lookup_iface: try `path`, then each parent subtree.
    method LookupIface(path: string, name: string) returns (r: Option<Interface>)
      ensures r == PathTable.LookupIface(managedPaths, path, name)
      ensures r.Some? ==> Name(r.value) == name
    {
      var lookupPath: Option<string> := Some(path);
      while lookupPath.Some?
        invariant PathTable.LookupIface(managedPaths, path, name) ==
          if lookupPath.Some? then FindIn(managedPaths, Levels(lookupPath.value), name) else None
        decreases if lookupPath.Some? then |BasePath(lookupPath.value)| + 1 else 0
      {
        var p := lookupPath.value;
        assert Levels(p)[0] == p;
        if p in managedPaths {
          var found := ListLookup(managedPaths[p], name);
          if found.Some? {
            return found;
          }
        }
        lookupPath := ParentSubtree(p);
        assert lookupPath.Some? ==> Levels(p)[1..] == Levels(lookupPath.value);
      }
      return None;
    }

    // One level of sbus_opath_hash_lookup_supported: the copy of the level's
    // list, or nothing when the level is not a key.
    method CopyLevel(p: string) returns (copy: seq<Interface>)
      ensures copy == if p in managedPaths then Copy(managedPaths[p]) else []
    {
      copy := [];
      if p in managedPaths {
        copy := IfaceListCopy(managedPaths[p]);
      }
    }

    // sbus_opath_hash_lookup_supported: concatenate the copies of every level's list.
    method LookupSupported(path: string) returns (list: seq<Interface>)
      ensures list == PathTable.LookupSupported(managedPaths, path)
    {
      list := [];
      var lookupPath: Option<string> := Some(path);
      ghost var whole := PathTable.LookupSupported(managedPaths, path);
      while lookupPath.Some?
        invariant list + SupportedFrom(managedPaths, lookupPath) == whole
        decreases if lookupPath.Some? then |BasePath(lookupPath.value)| + 1 else 0
      {
        var p := lookupPath.value;
        var copy := CopyLevel(p);
        SupportedAdvance(managedPaths, list, p, whole);
        lookupPath := ParentSubtree(p);
        list := list + copy;
      }
      assert list + [] == list;
    }

    // sbus_conn_register_path: claim a fallback on a subtree's base path (after
    // releasing an exact claim on it), or an exact claim on any other path.
    method RegisterPath(path: string) returns (r: Errno)
      modifies this`log
      ensures log == old(log) + ClaimEvents(managedPaths, path)
      ensures r == ClaimStatus(bus, path)
    {
      if IsSubtree(path) {
        var regPath := BasePath(path);
        if HasPath(regPath) {
          log := log + [UnregisterObjectPath(regPath)];
        }
        log := log + [RegisterFallback(regPath)];
        var ok := bus.registerFallback(regPath);
        r := if ok then EOK else ENOMEM;
      } else {
        log := log + [TryRegisterObjectPath(path)];
        var reply := bus.tryRegister(path);
        if reply.errorName == Some(ObjectPathInUseError) {
          return EOK;
        }
        r := if reply.ok then EOK else ENOMEM;
      }
    }

    // sbus_conn_reregister_paths: claim every key again, in the table's order,
    // stopping at the first failure.
    method ReregisterPaths() returns (r: Errno, ghost order: seq<string>)
      modifies this`log
      ensures Distinct(order) && forall k :: k in order ==> k in managedPaths
      ensures r == EOK ==> forall k :: k in managedPaths ==> k in order
      ensures r == EOK ==> forall k :: k in order ==> ClaimStatus(bus, k) == EOK
      ensures r != EOK ==> |order| > 0 && r == ClaimStatus(bus, order[|order| - 1])
      ensures r != EOK ==> forall i :: 0 <= i < |order| - 1 ==> ClaimStatus(bus, order[i]) == EOK
      ensures log == old(log) + ClaimAll(managedPaths, bus, order)
    {
      var remaining := managedPaths.Keys;
      order := [];
      while remaining != {}
        invariant Swept(managedPaths.Keys, remaining, order)
        invariant forall k :: k in order ==> ClaimStatus(bus, k) == EOK
        invariant log == old(log) + ClaimAll(managedPaths, bus, order)
        decreases remaining
      {
        var key :| key in remaining;
        SweepStep(managedPaths.Keys, remaining, order, key);
        ClaimAllSnoc(managedPaths, bus, order, key);
        ConcatAssoc(old(log), ClaimAll(managedPaths, bus, order), ClaimEvents(managedPaths, key));
        r := RegisterPath(key);
        order := order + [key];
        remaining := remaining - {key};
        if r != EOK {
          return;
        }
      }
      r := EOK;
    }

    // Destroying the table releases the base path of every key (sbus_opath_hash_delete_cb).
    method Destroy() returns (ghost order: seq<string>)
      modifies this
      ensures Valid()
      ensures managedPaths == map[]
      ensures Distinct(order) && forall k :: k in order <==> k in old(managedPaths)
      ensures log == old(log) + Releases(order)
    {
      order := [];
      while managedPaths.Keys != {}
        invariant Drained(old(managedPaths), managedPaths, order)
        invariant log == old(log) + Releases(order)
        decreases managedPaths.Keys
      {
        var key :| key in managedPaths.Keys;
        DrainStep(old(managedPaths), managedPaths, order, key);
        ReleasesSnoc(order, key);
        ConcatAssoc(old(log), Releases(order), [UnregisterObjectPath(BasePath(key))]);
        log := log + [UnregisterObjectPath(BasePath(key))];
        order := order + [key];
        managedPaths := managedPaths - {key};
      }
      assert managedPaths == map[];
    }

    // sbus_message_handler: resolve the interface and the method, then either
    // reply "unknown method" or start resolving the caller's identity.
    method HandleMessage(msg: Message, requestAllocated: bool, lookupStarted: bool)
      returns (res: HandlerResult, req: Request?)
      modifies this`log
      ensures var route := RouteOf(managedPaths, msg);
        && res == DispatchResult(route, requestAllocated, lookupStarted)
        && log == old(log) + DispatchEvents(route, msg, requestAllocated, lookupStarted)
        && (req != null <==> Suspends(route, requestAllocated, lookupStarted))
        && (req != null ==>
              && fresh(req) && req.conn == this && req.message == msg
              && req.intf == route.iface && req.methodMeta == route.methodMeta
              && req.state == AwaitingCallerId && req.client.None?)
    {
      var iface := LookupIface(msg.path, msg.iface);
      if iface.Some? {
        var found := FindMethod(iface.value.vtable.meta, msg.member);
        if found.Some? && found.value.vtableOffset != 0 {
          if !requestAllocated {
            return NeedMemory, null;
          }
          req := new Request(this, iface.value, msg, found.value);
          if !lookupStarted {
            return NeedMemory, null;
          }
          log := log + [SenderIdRequested(msg.sender)];
          return Handled, req;
        }
      }
      log := log + [ErrorReply(msg, UnknownMethodError)];
      return Handled, null;
    }
  }

  lemma ClaimAllSnoc(t: Table, bus: Bus, order: seq<string>, key: string)
    requires forall k :: k in order ==> ClaimStatus(bus, k) == EOK
    ensures ClaimAll(t, bus, order + [key]) == ClaimAll(t, bus, order) + ClaimEvents(t, key)
    decreases |order|
  {
    if |order| > 0 {
      assert (order + [key])[1..] == order[1..] + [key];
      ClaimAllSnoc(t, bus, order[1..], key);
    } else {
      assert ClaimAll(t, bus, [key]) == ClaimEvents(t, key);
    }
  }

  // sbus_conn_register_iface: reject a missing argument, add the interface, and
  // for a new key claim the path and register the introspection interface on it.
  method RegisterIface(conn: Connection?, vtable: Option<Vtable>, path: Option<string>, data: InstanceData)
    returns (r: Errno)
    requires conn != null ==> conn.Valid()
    modifies conn
    ensures conn != null ==> conn.Valid()
    ensures conn == null || vtable.None? || path.None? ==> r == EINVAL
    ensures conn != null && (vtable.None? || path.None?) ==>
      conn.managedPaths == old(conn.managedPaths) && conn.log == old(conn.log)
    ensures conn != null && vtable.Some? && path.Some? ==>
      var out := Register(old(conn.managedPaths), conn.bus, path.value, Interface(path.value, vtable.value, data));
      r == out.status && conn.managedPaths == out.table && conn.log == old(conn.log) + out.events
    decreases if conn != null && path.Some? && path.value in conn.managedPaths then 0 else 1
  {
    if conn == null || vtable.None? || path.None? {
      return EINVAL;
    }
    var p := path.value;
    var iface := Interface(p, vtable.value, data);
    var pathKnown;
    r, pathKnown := conn.AddIface(p, iface);
    if r != EOK {
      return;
    }
    if pathKnown {
      return EOK;
    }
    // a failed claim leaves the interface in the table
    r := conn.RegisterPath(p);
    if r != EOK {
      return;
    }
    r := RegisterIface(conn, Some(IntrospectVtable), Some(p), ConnectionData);
  }

  datatype RequestState = AwaitingCallerId | Invoked | Failed

  // An incoming call being served: created by the dispatcher, completed when
  // the caller's identity is known.
  class Request {
    const conn: Connection
    const intf: Interface
    const message: Message
    const methodMeta: MethodMeta
    var client: Option<int>
    var state: RequestState

    // sbus_new_request, with the method the dispatcher resolved.
    constructor (conn: Connection, intf: Interface, message: Message, methodMeta: MethodMeta)
      ensures this.conn == conn && this.intf == intf && this.message == message && this.methodMeta == methodMeta
      ensures client.None? && state == AwaitingCallerId
    {
      this.conn := conn;
      this.intf := intf;
      this.message := message;
      this.methodMeta := methodMeta;
      client := None;
      state := AwaitingCallerId;
    }

    // sbus_message_handler_got_caller_id: fail the request, or invoke the
    // resolved handler with the interface's instance data.
    method GotCallerId(caller: CallerId)
      requires state == AwaitingCallerId
      modifies this, conn`log
      ensures conn.log == old(conn.log) + CompletionEvents(intf, methodMeta, message, caller)
      ensures state == if caller.Resolved? then Invoked else Failed
      ensures client == if caller.Resolved? then Some(caller.uid) else old(client)
    {
      match caller
      case ResolveFailed(_) =>
        conn.log := conn.log + [ErrorReply(message, FailedError)];
        state := Failed;
      case Resolved(uid) =>
        client := Some(uid);
        var handler := VtableSlot(intf.vtable, methodMeta.vtableOffset);
        conn.log := conn.log + [Invoke(message, handler, intf.instanceData, methodMeta.invoker)];
        state := Invoked;
    }
  }
}

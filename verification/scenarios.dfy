// Whole-registry consequences of the definitions: what a caller of the
// registry and a remote sender of method calls observe.
module Scenarios {
  import opened SbusTypes
  import opened ObjectPath
  import opened PathTable
  import opened Sbus

  // The walk from "/org/a/1" visits "/org/a/1", "/org/a/*", "/org/*" and "/*".
  lemma LevelsOfOrgA1()
    ensures Levels("/org/a/1") == ["/org/a/1", "/org/a/*", "/org/*", "/*"]
  {
    ParentOfChild("/org/a/1", "/org/a", "1");
    assert "/org/a" + "/*" == "/org/a/*";
    ParentSubtreeWalk();
    assert Levels("/*") == ["/*"];
  }

  // Names are made unique within one level only: two interfaces with the same
  // name on two levels of the walk (the introspection interface registered on
  // both "/org/a/*" and "/org/*", say) are both listed, so the name appears twice.
  lemma SupportedKeepsDuplicatesAcrossLevels(t: Table, p: string, i: nat, j: nat, x: Interface, y: Interface)
    requires TableUnique(t)
    requires i < |Levels(p)| && j < |Levels(p)| && i != j
    requires Levels(p)[i] in t && x in t[Levels(p)[i]]
    requires Levels(p)[j] in t && y in t[Levels(p)[j]]
    requires x != y && Name(x) == Name(y)
    ensures var ls := LookupSupported(t, p);
      exists a, b :: 0 <= a < b < |ls| && Name(ls[a]) == Name(ls[b])
  {
    var ls := LookupSupported(t, p);
    assert x in ls by {
      SupportedMembers(t, Levels(p), x);
    }
    assert y in ls by {
      SupportedMembers(t, Levels(p), y);
    }
    var a :| 0 <= a < |ls| && ls[a] == x;
    var b :| 0 <= b < |ls| && ls[b] == y;
    if a < b {
      assert Name(ls[a]) == Name(ls[b]);
    } else {
      assert Name(ls[b]) == Name(ls[a]);
    }
  }

  // A call for interface X, method M on "/org/a/1", where only "/org/a/*"
  // holds X: the dispatcher finds the handler, waits for the caller's
  // identity and then invokes the handler once, with X's instance data.
  lemma SubtreeDispatchInvokesOnce(x: Interface, m: MethodMeta, sender: string, uid: int)
    requires x.vtable.meta.methods == [m] && m.vtableOffset != 0
    ensures var t := map["/org/a/*" := [x]];
      var msg := Message(Name(x), m.name, "/org/a/1", sender);
      && RouteOf(t, msg) == Target(x, m)
      && DispatchEvents(RouteOf(t, msg), msg, true, true) == [SenderIdRequested(sender)]
      && CompletionEvents(x, m, msg, Resolved(uid))
           == [Invoke(msg, VtableSlot(x.vtable, m.vtableOffset), x.instanceData, m.invoker)]
  {
    var t := map["/org/a/*" := [x]];
    var msg := Message(Name(x), m.name, "/org/a/1", sender);
    assert "/org/a" + "/*" == "/org/a/*" && "/org/a" + "/" + "1" == "/org/a/1";
    assert Hit(t, "/org/a/*", Name(x));
    SubtreeAnswersDescendant(t, "/org/a", "1", Name(x));
    assert FindMethod(x.vtable.meta, m.name) == Some(m);
  }

  // A call for an interface that no level of the walk holds gets exactly one
  // "unknown method" error and never waits for the caller's identity.
  lemma UnknownInterfaceRepliesOnce(t: Table, msg: Message, requestAllocated: bool, lookupStarted: bool)
    requires forall j :: 0 <= j < |Levels(msg.path)| ==> !Hit(t, Levels(msg.path)[j], msg.iface)
    ensures RouteOf(t, msg) == NoHandler
    ensures DispatchEvents(RouteOf(t, msg), msg, requestAllocated, lookupStarted) == [ErrorReply(msg, UnknownMethodError)]
    ensures DispatchResult(RouteOf(t, msg), requestAllocated, lookupStarted) == Handled
  {
    FindInFirstMatch(t, Levels(msg.path), msg.iface);
  }

  // Two interfaces of different names on one new path are both registered and
  // both listed; registering the first again is refused with EEXIST.
  lemma RegisterTwoInterfaces(t: Table, bus: Bus, p: string, x: Interface, y: Interface)
    requires TableUnique(t) && p !in t
    requires ClaimStatus(bus, p) == EOK
    requires Name(x) != Name(y) && Name(x) != IntrospectableName && Name(y) != IntrospectableName
    ensures var o1 := Register(t, bus, p, x);
      var o2 := Register(o1.table, bus, p, y);
      && o1.status == EOK && o2.status == EOK
      && x in LookupSupported(o2.table, p) && y in LookupSupported(o2.table, p)
      && Register(o1.table, bus, p, x).status == EEXIST
      && Register(o2.table, bus, p, y).status == EEXIST
  {
    var intro := Interface(p, IntrospectVtable, ConnectionData);
    RegisterOutcomes(t, bus, p, x);
    var o1 := Register(t, bus, p, x);
    assert o1.table[p] == [x, intro];
    RegisterOutcomes(o1.table, bus, p, y);
    var o2 := Register(o1.table, bus, p, y);
    assert ListLookup([x, intro], Name(y)).None?;
    assert o2.table[p] == [x, intro, y];
    RegisterOutcomes(o1.table, bus, p, x);
    RegisterOutcomes(o2.table, bus, p, y);
    assert ListLookup([x, intro], Name(x)).Some?;
    assert ListLookup([x, intro, y], Name(y)).Some?;
    assert Levels(p)[0] == p;
    SupportedMembers(o2.table, Levels(p), x);
    SupportedMembers(o2.table, Levels(p), y);
    assert x in o2.table[Levels(p)[0]] && y in o2.table[Levels(p)[0]];
  }

  // Registering interface X on the subtree "/org/a/*" of an empty registry
  // claims the fallback "/org/a" and adds X followed by the introspection
  // interface.
  lemma RegisterSubtreeOnEmpty(bus: Bus, x: Interface)
    requires bus.registerFallback("/org/a") && x.path == "/org/a/*"
    requires Name(x) != IntrospectableName
    ensures var intro := Interface("/org/a/*", IntrospectVtable, ConnectionData);
      Register(map[], bus, "/org/a/*", x)
        == Registration(EOK, map["/org/a/*" := [x, intro]], [RegisterFallback("/org/a")])
  {
    BasePathRoundTrip("/org/a");
    assert "/org/a" + "/*" == "/org/a/*";
    RegisterOutcomes(map[], bus, "/org/a/*", x);
  }

  // With X and the introspection interface on "/org/a/*", a call to X on
  // "/org/a/1" is routed to X's only method.
  lemma RouteBelowSubtree(x: Interface, m: MethodMeta, msg: Message)
    requires x.vtable.meta.methods == [m] && m.vtableOffset != 0
    requires Name(x) != IntrospectableName
    requires msg.iface == Name(x) && msg.member == m.name && msg.path == "/org/a/1"
    ensures var intro := Interface("/org/a/*", IntrospectVtable, ConnectionData);
      RouteOf(map["/org/a/*" := [x, intro]], msg) == Target(x, m)
  {
    var intro := Interface("/org/a/*", IntrospectVtable, ConnectionData);
    var t := map["/org/a/*" := [x, intro]];
    assert "/org/a" + "/*" == "/org/a/*" && "/org/a" + "/" + "1" == "/org/a/1";
    assert Hit(t, "/org/a/*", Name(x));
    SubtreeAnswersDescendant(t, "/org/a", "1", Name(x));
    assert FindMethod(x.vtable.meta, m.name) == Some(m);
  }

  // The same scenario driven through a connection: a fresh connection
  // registers X on the subtree "/org/a/*" ...
  method RegisterOnFreshConnection(bus: Bus, x: Interface) returns (conn: Connection)
    requires bus.registerFallback("/org/a") && x.path == "/org/a/*"
    requires Name(x) != IntrospectableName
    ensures fresh(conn) && conn.Valid()
    ensures conn.managedPaths == map["/org/a/*" := [x, Interface("/org/a/*", IntrospectVtable, ConnectionData)]]
    ensures conn.log == [RegisterFallback("/org/a")]
  {
    conn := new Connection(bus);
    RegisterSubtreeOnEmpty(bus, x);
    var r := RegisterIface(conn, Some(x.vtable), Some("/org/a/*"), x.instanceData);
  }

  // ... and then serves a call to "/org/a/1": it waits for the caller's
  // identity and invokes X's handler once.
  method SubtreeScenario(bus: Bus) returns (conn: Connection, res: HandlerResult)
    requires bus.registerFallback("/org/a")
    ensures res == Handled
    ensures var vt := Vtable(1, InterfaceMeta("org.example.Users", [MethodMeta("GetUserByName", 1, 7)]));
      var msg := Message("org.example.Users", "GetUserByName", "/org/a/1", ":1.9");
      conn.log == [RegisterFallback("/org/a"), SenderIdRequested(":1.9"), Invoke(msg, VtableSlot(vt, 1), Opaque(5), 7)]
  {
    var m := MethodMeta("GetUserByName", 1, 7);
    var vt := Vtable(1, InterfaceMeta("org.example.Users", [m]));
    var x := Interface("/org/a/*", vt, Opaque(5));
    conn := RegisterOnFreshConnection(bus, x);

    var msg := Message("org.example.Users", "GetUserByName", "/org/a/1", ":1.9");
    RouteBelowSubtree(x, m, msg);
    var req;
    res, req := conn.HandleMessage(msg, true, true);
    assert res == Handled && req != null && req.intf == x && req.methodMeta == m;
    assert conn.log == [RegisterFallback("/org/a"), SenderIdRequested(":1.9")];
    req.GotCallerId(Resolved(1000));
  }
}

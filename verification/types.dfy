/**
 * Values shared by the object-path registry and the dispatcher of the
 * sbus layer: interfaces and their method tables, incoming messages, the
 * errno codes the registry returns, and the events an abstract D-Bus
 * transport records.
 */
module SbusTypes {

  datatype Option<+T> = None | Some(value: T)

  /** The errno values the registry functions return. */
  datatype Errno = EOK | EINVAL | ENOMEM | EEXIST

  /** What the D-Bus library hands back to the transport for one message. */
  datatype HandlerResult = Handled | NeedMemory

  /** D-Bus error names used by the dispatcher and the path claiming policy. */
  const UnknownMethodError: string := "org.freedesktop.DBus.Error.UnknownMethod"
  const FailedError: string := "org.freedesktop.DBus.Error.Failed"
  const ObjectPathInUseError: string := "org.freedesktop.DBus.Error.ObjectPathInUse"

  /** Name of the standard interface registered on every new object path. */
  const IntrospectableName: string := "org.freedesktop.DBus.Introspectable"

  /** One entry of an interface's method meta table. */
  datatype MethodMeta = MethodMeta(name: string, vtableOffset: nat, invoker: nat)

  /** The interface meta data: its D-Bus name and its methods. */
  datatype InterfaceMeta = InterfaceMeta(name: string, methods: seq<MethodMeta>)

  /**
   * A method table. `id` stands for the identity of the table of
   * handler functions; `meta` describes it.
   */
  datatype Vtable = Vtable(id: nat, meta: InterfaceMeta)

  /** The handler found at `offset` in `vtable` (the C macro VTABLE_FUNC). */
  datatype Handler = VtableSlot(vtable: Vtable, offset: nat)

  /** Instance data given to handlers: the connection itself, or an opaque caller value. */
  datatype InstanceData = ConnectionData | Opaque(token: nat)

  /** One registered interface: the object path it was registered on, its table and its data. */
  datatype Interface = Interface(path: string, vtable: Vtable, instanceData: InstanceData)

  function Name(iface: Interface): string
  {
    iface.vtable.meta.name
  }

  /** The header fields the dispatcher reads from an incoming method call. */
  datatype Message = Message(iface: string, member: string, path: string, sender: string)

  /** The reply of `dbus_connection_try_register_object_path`: its result and the error it set. */
  datatype ClaimReply = ClaimReply(ok: bool, errorName: Option<string>)

  /**
   * The transport, reduced to its answers: how it replies to an exact claim
   * and whether a fallback claim succeeds, for each path.
   */
  datatype Bus = Bus(tryRegister: string -> ClaimReply, registerFallback: string -> bool)

  /** The outcome of resolving a sender's identity: a uid, or an errno. */
  datatype CallerId = Resolved(uid: int) | ResolveFailed(errno: int)

  /** What the transport and the dispatcher are asked to do, in order. */
  datatype Event =
    | TryRegisterObjectPath(path: string)
    | RegisterFallback(path: string)
    | UnregisterObjectPath(path: string)
    | ErrorReply(to: Message, errorName: string)
    | SenderIdRequested(sender: string)
    | Invoke(to: Message, handler: Handler, data: InstanceData, invoker: nat)

  /** Events after which the request has been answered or handed to its handler. */
  predicate Terminal(e: Event)
  {
    e.ErrorReply? || e.Invoke?
  }
}

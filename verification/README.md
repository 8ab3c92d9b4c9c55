# sbus object-path registry and dispatcher, modelled in Dafny

This project models the object-path registry and the method-call dispatcher of SSSD's sbus layer, `src/sbus/sssd_dbus_interface.c`.

The registry is a connection's table of managed paths. It maps object paths to ordered lists of interfaces; each interface is a method table, its meta data and instance data. A path that ends in `/*` is a *subtree* path: it serves every object below its base path.

## What is modelled

Looking up an interface for a path walks upwards through the subtree paths. For example, `/org/a/1`, then `/org/a/*`, `/org/*` and `/*`. The first level whose list holds the interface name answers.

Registering an interface has two cases:
- on a new path it first puts the interface in the table, then claims the path on the D-Bus connection (an exact path, or a fallback for a subtree); only when the claim succeeds does it add the standard Introspectable interface, and a failed claim returns `ENOMEM` with the interface left in the table;
- on a path already in the table it just appends the interface, or returns `EEXIST` when the path already lists that name.

The dispatcher answers an incoming method call in one of two ways:
- with one "unknown method" error;
- by suspending to resolve the sender's identity. When the identity arrives, it either invokes the handler or sends one "failed" error.

Modules:

- `SbusTypes` (`types.dfy`): interfaces, method meta data, messages and errno values. It also holds the abstract transport (`Bus`, its answers per path) and the events the transport and dispatcher are asked to perform.
- `ObjectPath` (`opath.dfy`): `IsSubtree`, `BasePath`, `ParentSubtree` and the walk `Levels` they define.
  - Termination: the length of the base path strictly decreases.
  - Bound: the walk visits at most one level per slash of the base path, plus one.
  - Coverage: for a well-formed descendant `prefix/rest`, the walk reaches `prefix/*`.
- `PathTable` (`opath_table.dfy`): the table as a map from path to interface list.
  - It defines the per-list lookup, adding an interface, the upward lookup and the `lookup_supported` listing.
  - The list copy is proved against its specification function `Copy`. For a list that already has unique names, `Copy` is the reversed list.
- `Sbus` (`connection.dfy`): the registration policy as functions of the table (`ClaimEvents`, `ClaimStatus`, `Register`) and the dispatch route (`RouteOf`).
  - The class `Connection` holds the managed paths and a ghost log of transport events. Its methods are proved equal to those functions.
  - The class `Request` is the suspended call, with its caller-identity continuation.
  - `RegisterIface` is the recursive registration entry point.
- `Scenarios` (`scenarios.dfy`): whole-registry consequences. One is a subtree registration served to a descendant path, driven through the `Connection` methods.

Deliberate choices:

- **Duplicates across levels.** `sbus_opath_hash_lookup_supported` removes duplicate interface names only within one level. Its per-level copy prepends, so each level's part comes out reversed. The same name registered on two levels of the walk is listed twice. The model follows the code (`PathTable.SupportedAt`, `Scenarios.SupportedKeepsDuplicatesAcrossLevels`). It does not follow a reading in which the listing holds every name once.
- **Termination measure.** The number of slashes in the base path does not always drop when moving to the parent: `/org` and `/*` both have one slash. The walk's termination measure is therefore the length of the base path. `ObjectPath.ParentDropsSlash` states exactly when the slash count drops.
- **Empty path.** For the empty path, whose base path is empty, the C code's test of the second character reads past the string terminator. The model ends the walk there: `ParentSubtree` returns none when the base path has at most one character. For `/*` the base path is `/`, and both the C code and the model stop there.

## Model

| member | source | states |
|---|---|---|
| ObjectPath.IsSubtree | src/sbus/sssd_dbus_interface.c:98-109 | definition, no contract: at least two characters, ending in `/*` |
| ObjectPath.BasePath | src/sbus/sssd_dbus_interface.c:115-136 | definition, no contract; its properties are stated by `ObjectPath.BasePathRoundTrip` and `ObjectPath.BasePathShape` |
| ObjectPath.LastSlash | src/sbus/sssd_dbus_interface.c:151-157 | the position found holds a `/` and no `/` follows it; none is found only when the string has no `/` (the `strrchr` search) |
| ObjectPath.BasePathRoundTrip | src/sbus/sssd_dbus_interface.c:98-136 | `b + "/*"` is a subtree path whose base path is `b`, or `/` when `b` is empty; re-appending `/*` restores the subtree path |
| ObjectPath.BasePathShape | src/sbus/sssd_dbus_interface.c:115-136 | a non-subtree path is its own base path; a longer subtree path is its base path followed by `/*`; a subtree path's base path is shorter |
| ObjectPath.ParentSubtree | src/sbus/sssd_dbus_interface.c:138-172 | a parent, when there is one, is a subtree path whose base path is strictly shorter, so the upward walk terminates |
| ObjectPath.ParentOfChild | src/sbus/sssd_dbus_interface.c:151-171 | when the base path is `d/s` with a non-empty last segment `s`, the parent is `d/*` |
| ObjectPath.ParentNone | src/sbus/sssd_dbus_interface.c:144-164 | there is no parent exactly when the base path has at most one character (the root), has no `/`, or ends with `/` |
| ObjectPath.ParentSubtreeWalk | src/sbus/sssd_dbus_interface.c:138-172 | `/org/a/b` climbs to `/org/a/*`, then `/org/*`, then `/*`, which has no parent |
| ObjectPath.ParentSubtreeEdges | src/sbus/sssd_dbus_interface.c:147-164 | `/org` climbs to `/*`; a relative path and a path ending in `/` have no parent |
| ObjectPath.Levels | src/sbus/sssd_dbus_interface.c:332-353 | the walk is never empty and starts at the requested path |
| ObjectPath.SlashesSplit | src/sbus/sssd_dbus_interface.c:152-169 | cutting at the last `/` removes exactly one slash |
| ObjectPath.ParentDropsSlash | src/sbus/sssd_dbus_interface.c:138-172 | the parent's base path has no more slashes than the current one, and strictly fewer unless the parent is `/*` |
| ObjectPath.LevelsBound | src/sbus/sssd_dbus_interface.c:304-353 | the walk visits at most one level per slash of the base path, plus one |
| ObjectPath.LevelsSuffix | src/sbus/sssd_dbus_interface.c:332-353 | the rest of a walk from any level on it is the walk from that level |
| ObjectPath.LevelsShrink | src/sbus/sssd_dbus_interface.c:332-353 | base paths strictly shrink along the walk, so no path is visited twice |
| ObjectPath.ParentOfDescendant | src/sbus/sssd_dbus_interface.c:138-172 | a well-formed descendant `prefix/rest` other than `prefix/*` has a parent, which is `prefix/*` or a shorter descendant |
| ObjectPath.StepFromExact | src/sbus/sssd_dbus_interface.c:151-171 | one step up from a path whose base path is `prefix/r` reaches `prefix/*` or a descendant of `prefix` with a shorter rest |
| ObjectPath.TrimLastSegment | src/sbus/sssd_dbus_interface.c:166-169 | replacing the last segment of a well-formed chain of segments by `*` leaves a well-formed chain of smaller rank |
| ObjectPath.SubtreeOnWalk | src/sbus/sssd_dbus_interface.c:304-353 | the walk from `prefix/rest` passes through the subtree path `prefix/*` |
| PathTable.ListLookup | src/sbus/sssd_dbus_interface.c:30-43 | a found interface has the name and is the first list element with it; nothing is found exactly when no element has the name |
| PathTable.AddIface | src/sbus/sssd_dbus_interface.c:197-290 | refused exactly when the path already lists the name; otherwise the interface is appended at the end of the existing list or starts a new one-element list; other paths are unchanged |
| PathTable.AddKeepsUnique | src/sbus/sssd_dbus_interface.c:239-278 | adding keeps every list free of duplicate names |
| PathTable.AddAllUnique | src/sbus/sssd_dbus_interface.c:197-290 | any sequence of additions keeps every list free of duplicate names |
| PathTable.FindIn | src/sbus/sssd_dbus_interface.c:332-353 | definition, no contract: the first level of a walk whose list holds the name answers; its properties are stated by `PathTable.FindInFirstMatch` |
| PathTable.LookupIface | src/sbus/sssd_dbus_interface.c:309-358 | definition, no contract: `FindIn` over `Levels(path)`; see `PathTable.FindInFirstMatch` and `PathTable.SubtreeAnswersDescendant` |
| PathTable.FindInFirstMatch | src/sbus/sssd_dbus_interface.c:309-358 | the lookup finds nothing exactly when no level of the walk lists the name; otherwise it answers from the first level that does |
| PathTable.SubtreeAnswersDescendant | src/sbus/sssd_dbus_interface.c:304-358 | when `prefix/*` lists the name and no level the walk visits before it lists the name, a lookup on any descendant `prefix/rest` answers from `prefix/*` |
| PathTable.AncestorsDoNotHide | src/sbus/sssd_dbus_interface.c:304-358 | when `prefix/*` lists the name, keys above it on the walk (such as `/*` holding the Introspectable interface) never change the answer for a descendant `prefix/rest` |
| PathTable.Copy | src/sbus/sssd_dbus_interface.c:45-92 | definition, no contract: skip a name already copied, otherwise put the interface at the head; its properties are stated by `PathTable.CopyUnique`, `PathTable.CopyCovers`, `PathTable.CopyKeepsFirst` and `PathTable.CopyOfUniqueIsReverse` |
| PathTable.Reverse | src/sbus/sssd_dbus_interface.c:66-81 | element `i` of the result is element `n-1-i` of the input |
| PathTable.CopyUnique | src/sbus/sssd_dbus_interface.c:45-92 | the copy lists each name at most once |
| PathTable.CopyCovers | src/sbus/sssd_dbus_interface.c:66-81 | every name of the original list is in the copy |
| PathTable.CopyKeepsFirst | src/sbus/sssd_dbus_interface.c:66-81 | each interface in the copy is the first one with its name in the original list |
| PathTable.PrefixLookup | src/sbus/sssd_dbus_interface.c:30-43 | appending an element changes the lookup only for a name that was absent and is the appended element's |
| PathTable.ConcatLookup | src/sbus/sssd_dbus_interface.c:30-43 | a lookup in a concatenation answers from the first part when it can, and otherwise from the second |
| PathTable.CopyOfUniqueIsReverse | src/sbus/sssd_dbus_interface.c:66-81 | copying a list with unique names reverses it, because each element is prepended |
| PathTable.CopyLookup | src/sbus/sssd_dbus_interface.c:45-92 | looking a name up in the copy answers exactly as in the original list |
| PathTable.SupportedAt | src/sbus/sssd_dbus_interface.c:396-418 | definition, no contract: the per-level copies concatenated along the walk; see `PathTable.SupportedMembers` |
| PathTable.LookupSupported | src/sbus/sssd_dbus_interface.c:363-427 | definition, no contract: `SupportedAt` over `Levels(path)`; see `PathTable.SupportedMembers` and `PathTable.LookupIsFirstSupported` |
| PathTable.SupportedStep | src/sbus/sssd_dbus_interface.c:396-418 | the listing from a level is that level's copy followed by the listing from its parent |
| PathTable.SupportedAdvance | src/sbus/sssd_dbus_interface.c:396-418 | after one more level, what has been listed followed by what is left to list is still the whole listing |
| PathTable.SupportedMembers | src/sbus/sssd_dbus_interface.c:363-427 | an interface is listed exactly when some level of the walk holds it in the table |
| PathTable.LookupIsFirstSupported | src/sbus/sssd_dbus_interface.c:309-427 | the interface lookup gives the first interface with that name in the supported listing |
| PathTable.IfaceListCopy | src/sbus/sssd_dbus_interface.c:45-92 | the loop computes `Copy`, which has unique names, covers every name and keeps the first interface with each name |
| Sbus.ClaimEvents | src/sbus/sssd_dbus_interface.c:460-501 | a subtree path registers its base path as a fallback, first unregistering the base path exactly when it is a managed key; the events are then exactly one unregistration (when the base is a key) followed by the fallback claim, nothing else; an exact path is tried as an object path |
| Sbus.ClaimStatus | src/sbus/sssd_dbus_interface.c:473-510 | the result is EOK or ENOMEM; a fallback claim succeeds when the transport accepts it; an exact claim also counts as success when the path is already in use |
| Sbus.ClaimAll | src/sbus/sssd_dbus_interface.c:573-578 | definition, no contract: the claim events of each key in order, up to and including the first failing claim; see `Sbus.ClaimAllSnoc` and `Sbus.Connection.ReregisterPaths` |
| Sbus.Releases | src/sbus/sssd_dbus_interface.c:174-186 | one unregistration of each key's base path, in order |
| Sbus.ReleasesSnoc | src/sbus/sssd_dbus_interface.c:174-186 | releasing one more key appends one unregistration of its base path |
| Sbus.Register | src/sbus/sssd_dbus_interface.c:512-556 | definition, no contract: add, then for a new path claim it and add the Introspectable interface; its outcomes are stated by `Sbus.RegisterOutcomes` |
| Sbus.RegisterOutcomes | src/sbus/sssd_dbus_interface.c:512-556 | the outcomes of registration: EEXIST for a listed name, append on a known path without claiming, claim on a new path, interface kept after a failed claim, introspection added after a successful one; the table stays unique |
| Sbus.RegisterNewKey | src/sbus/sssd_dbus_interface.c:526-556 | on a new path the interface comes first; after success the path also lists the Introspectable interface; other paths are untouched |
| Sbus.FindMethod | src/sbus/sssd_dbus_interface.c:623-626 | a found method has the requested name and belongs to the interface; nothing is found exactly when no method has the name |
| Sbus.RouteOf | src/sbus/sssd_dbus_interface.c:616-626 | a handler is chosen exactly when the interface lookup succeeds and names a method with a non-zero table slot |
| Sbus.DispatchEvents | src/sbus/sssd_dbus_interface.c:616-656 | definition, no contract: an unknown-method error without a route, a sender-ID request when both allocations succeed, nothing otherwise; see `Sbus.DispatchAnswersOnce` |
| Sbus.DispatchResult | src/sbus/sssd_dbus_interface.c:628-655 | definition, no contract: NEED_MEMORY exactly when a route exists and an allocation fails, HANDLED otherwise; see `Sbus.DispatchAnswersOnce` |
| Sbus.CompletionEvents | src/sbus/sssd_dbus_interface.c:672-684 | definition, no contract: one Failed error when the caller is not resolved, otherwise one invocation of the method's table slot; see `Sbus.DispatchAnswersOnce` |
| Sbus.DispatchAnswersOnce | src/sbus/sssd_dbus_interface.c:590-686 | every incoming call is answered once, by one error reply or one invocation, unless the dispatcher reports that it needs memory |
| Sbus.ClaimAllSnoc | src/sbus/sssd_dbus_interface.c:573-578 | claiming one more key after successful claims appends that key's events |
| Sbus.Connection.Valid | src/sbus/sssd_dbus_interface.c:239-255 | definition, no contract: every list of the table has unique names, which every mutating method preserves |
| Sbus.Connection.constructor | src/sbus/sssd_dbus_interface.c:188-195 | a new connection has no managed paths |
| Sbus.Connection.AddIface | src/sbus/sssd_dbus_interface.c:197-290 | the table becomes the result of `PathTable.AddIface`; EEXIST leaves it unchanged; reports whether the path was known |
| Sbus.Connection.HasPath | src/sbus/sssd_dbus_interface.c:292-302 | true exactly when the path is a key of the table |
| Sbus.Connection.LookupIface | src/sbus/sssd_dbus_interface.c:309-358 | the loop returns the first-match lookup over the walk |
| Sbus.Connection.CopyLevel | src/sbus/sssd_dbus_interface.c:400-407 | one level contributes the copy of its list when it is a key, and nothing otherwise |
| Sbus.Connection.LookupSupported | src/sbus/sssd_dbus_interface.c:363-427 | the loop returns the concatenation of the per-level copies over the walk |
| Sbus.Connection.RegisterPath | src/sbus/sssd_dbus_interface.c:460-510 | records exactly the claim events for the path and returns the claim status |
| Sbus.Connection.ReregisterPaths | src/sbus/sssd_dbus_interface.c:558-585 | claims distinct keys in some order, stopping at the first failure; EOK means every key was claimed successfully |
| Sbus.Connection.Destroy | src/sbus/sssd_dbus_interface.c:174-195 | empties the table and unregisters the base path of every former key once |
| Sbus.Connection.HandleMessage | src/sbus/sssd_dbus_interface.c:590-656 | replies "unknown method" when no handler is found; otherwise asks for the sender's identity and returns a fresh suspended request, or reports that it needs memory |
| Sbus.RegisterIface | src/sbus/sssd_dbus_interface.c:512-556 | EINVAL for a missing connection, method table or path; otherwise the status, table and events of `Register` |
| Sbus.Request.constructor | src/sbus/sssd_dbus_interface.c:628-642 | a new request awaits the caller's identity |
| Sbus.Request.GotCallerId | src/sbus/sssd_dbus_interface.c:658-686 | a failed resolution sends one "failed" error; a resolved one stores the uid and invokes the method's table slot with the interface's instance data and invoker |
| Scenarios.LevelsOfOrgA1 | src/sbus/sssd_dbus_interface.c:304-353 | the walk from `/org/a/1` is `/org/a/1`, `/org/a/*`, `/org/*`, `/*` |
| Scenarios.SupportedKeepsDuplicatesAcrossLevels | src/sbus/sssd_dbus_interface.c:396-418 | two different interfaces with the same name on two levels of the walk (the Introspectable interface on `/org/a/*` and on `/org/*`, say) make that name appear at two positions of the listing |
| Scenarios.SubtreeDispatchInvokesOnce | src/sbus/sssd_dbus_interface.c:590-686 | a call below a subtree that holds the interface is routed to it, suspends for the caller's identity, and then invokes the handler once |
| Scenarios.UnknownInterfaceRepliesOnce | src/sbus/sssd_dbus_interface.c:616-655 | when no level of the walk holds the interface, the only event is one "unknown method" error |
| Scenarios.RegisterTwoInterfaces | src/sbus/sssd_dbus_interface.c:512-556 | two differently named interfaces on a new path are both registered and listed; registering either again gives EEXIST |
| Scenarios.RegisterSubtreeOnEmpty | src/sbus/sssd_dbus_interface.c:473-556 | registering on `/org/a/*` in an empty registry registers the fallback `/org/a` and lists the interface and then the Introspectable interface |
| Scenarios.RouteBelowSubtree | src/sbus/sssd_dbus_interface.c:616-626 | a call on `/org/a/1` for an interface registered on `/org/a/*` is routed to that interface's method |
| Scenarios.RegisterOnFreshConnection | src/sbus/sssd_dbus_interface.c:512-556 | a fresh connection that registers an interface on `/org/a/*` holds the interface and then the Introspectable interface there, and has registered only the fallback `/org/a` |
| Scenarios.SubtreeScenario | src/sbus/sssd_dbus_interface.c:512-686 | registering an interface on `/org/a/*` and then calling it on `/org/a/1` returns HANDLED and leaves exactly three events: the fallback claim for `/org/a`, the sender-ID request, and one invocation of the method's slot with the interface's instance data |

## Left out

- The D-Bus library is not called. Its answers are fixed per path in `Bus`, and the calls the registry makes are recorded as `Event`s in a ghost log. This covers `dbus_connection_try_register_object_path`, `dbus_connection_register_fallback`, `dbus_connection_unregister_object_path`, error replies and the sender-ID request.
- Hash table failures other than "key not found" (`EIO` in `sbus_opath_hash_add_iface`, the lookup loops' "unable to search" branches) and a failing `hash_keys` are not modelled: the table is a map.
- Memory allocation failures (`talloc`, `ENOMEM` from allocation, `sbus_new_interface` returning NULL) are not modelled. The exceptions are the dispatcher's two NEED_MEMORY branches, which are parameters of `HandleMessage`.
- Sbus.Connection.LookupSupported: always succeeds. The errno return for an allocation or table failure is not modelled.
- Resolving the sender's identity is asynchronous (tevent) in the source. Here it is the `CallerId` value handed to `Request.GotCallerId`.
- `sbus_meta_find_method` is not part of this model. It is modelled as the first method with the requested name (`FindMethod`).
- `VTABLE_FUNC` becomes the value `VtableSlot(vtable, offset)`.
- `sbus_request_invoke_or_finish` and `sbus_request_fail_and_finish` are not part of this model. They are recorded as an `Invoke` event and an error reply.
- `sbus_introspect_vtable` is not part of this model. `IntrospectVtable` stands in for it, with the standard interface name and one `Introspect` method.
- Object paths are Dafny strings and the model takes `strlen` to be their length. A path with an embedded NUL character, which C would cut short at the NUL, is not modelled.
- A message without an interface name header (NULL for `strcmp`) is not modelled. Message header fields are strings.
- The walk for the empty path (the C code reads past the string terminator) ends in the model instead of reproducing undefined behaviour.
- The hash table's iteration order for `hash_keys` and for teardown is not modelled. `ReregisterPaths` and `Destroy` work in an arbitrary order, which they return as ghost output.
- Debug logging and talloc ownership moves (`talloc_steal`) are not modelled.

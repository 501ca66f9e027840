# Event-listener map service, modelled in Dafny

`EventListenerMapService` keeps track of DOM event subscriptions for a text-field
component. Its one field is a two-level table: event type → (listener → disposer).
A disposer is the removal handle that the framework renderer's `listen` returns.

- `listen(renderer, target, type, listener)` creates an empty inner table for `type` when
  there is none. It then subscribes through `renderer.listen` and stores the returned
  disposer under (`type`, `listener`). An existing entry for that pair is overwritten and
  its disposer is not invoked.
- `unlisten(type, listener)` does nothing when `type` is unknown or `listener` is not
  registered under it. Otherwise it invokes the stored disposer and deletes the entry.
  The type key stays in the outer table even when its inner table becomes empty.

The project has three modules:

- `ListenerRegistry` (`listener_registry.dfy`) gives the value-level meaning of one call.
  `Register` is one `listen`, `Unregister` is one `unlisten`, and `Lookup` is the disposer
  that `unlisten` would invoke. Their contracts state what is stored afterwards and that
  every other entry is left alone.
- `ListenerHistory` (`listener_history.dfy`) reads the table through the sequence of calls
  that built it. `Run` folds the calls from the empty table and also records which
  disposers were invoked. `Latest` is an independent definition of "registered and not
  removed since". The lemmas prove that the fold agrees with `Latest`, that type keys are
  never removed, and that no disposer is invoked twice when the renderer hands out
  distinct disposers. They also prove that a disposer overwritten by a second `listen` is
  never invoked afterwards, so that subscription is leaked.
- `EventListenerMap` (`event_listener_map.dfy`) is the imperative service. The class
  `EventListenerMapService` holds the table in the field `listenersMap`, which `Listen` and
  `Unlisten` update in place. The ghost field `invoked` logs every disposer invocation, and
  the ghost field `history` records the calls made so far. `Valid()` ties the field and the
  log to `Run(history)`. The class `Renderer` stands for the framework renderer: each
  `Listen` logs one subscription and returns a disposer token it has never returned
  before. Two example methods outside the service, `SameListenerTwoTypes` and `TwoListenersOneType`, walk
  through the teardown scenarios: one listener under "focus" and "blur"; two listeners
  under "input"; and a repeated removal.

Listeners are a type parameter `L` with equality. This stands for the identity of the
JavaScript function object used as the key. The DOM target is a type parameter `T`.

## Model

| member | source | states |
|---|---|---|
| ListenerRegistry.Register | packages/common/event-listener-map.service.ts:29-39 | after `listen`, the type is a key and the pair maps to the new disposer; an empty inner table is created only for an absent type; other listeners under the type and other types' inner tables are unchanged |
| ListenerRegistry.Unregister | packages/common/event-listener-map.service.ts:53-65 | an unknown type or unregistered listener leaves the table unchanged; otherwise only the pair is removed, every other pair keeps its disposer, and the type key stays |
| ListenerRegistry.UnregisterIdempotent | packages/common/event-listener-map.service.ts:59-65 | a second `unlisten` of the same pair finds nothing to invoke and changes nothing |
| ListenerRegistry.RegisterOverwrites | packages/common/event-listener-map.service.ts:37-39 | a second `listen` of the same pair leaves only the second disposer stored, as if the first had never happened |
| ListenerRegistry.RegisterInTwoSteps | packages/common/event-listener-map.service.ts:29-39 | creating the inner table and then setting the entry in it amounts to `Register` |
| ListenerHistory.ReplayIsLatest | packages/common/event-listener-map.service.ts:20-66 | a pair is present exactly when the latest call about it was a `listen`, and it then holds that call's disposer |
| ListenerHistory.ReplayKeys | packages/common/event-listener-map.service.ts:29-31 | the outer keys are exactly the types ever passed to `listen`; `unlisten` never removes a type |
| ListenerHistory.ListenStep | packages/common/event-listener-map.service.ts:34-39 | one `listen` call is a `Register` step that invokes no disposer and hands out one |
| ListenerHistory.ListenThenUnlisten | packages/common/event-listener-map.service.ts:34-65 | `listen` then `unlisten` of the same pair invokes exactly the disposer that `listen` stored, once, and removes the pair |
| ListenerHistory.AccountedHolds | packages/common/event-listener-map.service.ts:58-65 | with distinct disposers, every invoked disposer was issued, none twice; no stored disposer has been invoked; no disposer is stored under two pairs |
| ListenerHistory.DisposedAtMostOnce | packages/common/event-listener-map.service.ts:64-65 | with distinct disposers, no disposer is ever invoked twice, and every invoked one came from `renderer.listen` |
| ListenerHistory.OverwrittenNeverDisposed | packages/common/event-listener-map.service.ts:34-39 | a disposer replaced by a second `listen` of the same pair is never invoked or stored afterwards, whatever calls follow |
| ListenerHistory.ListenKeepsIssuedBelow | packages/common/event-listener-map.service.ts:34 | a `listen` that stores a renderer's next fresh disposer keeps all handed-out disposers distinct |
| EventListenerMap.Renderer.Listen | packages/common/event-listener-map.service.ts:34 | keeps every handed-out disposer numbered below `nextId`; each call logs one subscription and returns a disposer different from every one in the earlier subscriptions |
| EventListenerMap.EventListenerMapService.constructor | packages/common/event-listener-map.service.ts:9-11 | the service starts with an empty table, no invocations and no history |
| EventListenerMap.EventListenerMapService.Listen | packages/common/event-listener-map.service.ts:20-40 | the table becomes `Register` of the old table with the renderer's fresh disposer; `renderer.listen` is called exactly once; no disposer is invoked; disposer freshness is kept |
| EventListenerMap.EventListenerMapService.Unlisten | packages/common/event-listener-map.service.ts:47-66 | the table becomes `Unregister` of the old one; a missing type or listener changes nothing and invokes nothing; a registered pair's disposer is invoked exactly once |

## Left out

- The text-field component (`packages/textfield/src/textfield.component.ts`) is not part of this model. Its adapter only forwards to the renderer and to an external foundation library whose logic is not visible. Its four register/deregister pairs call `listen`/`unlisten` with the types "focus", "blur", "input" and "keydown"; the two example methods exercise the same calls.
- The actual DOM subscription made by `renderer.listen` is not modelled. `Renderer.Listen` only logs the call and returns a fresh token. What a disposer does to the DOM is reduced to one entry in the ghost log `invoked`.
- The inner table is a `WeakMap` in the source. Garbage collection of unreachable listeners cannot be expressed, so the inner table is an ordinary map whose entries disappear only through `Unlisten`. For the same reason listeners are values with equality (`L(!new)`), not heap objects.
- EventListenerMapService.Unlisten: the model assumes that the stored disposer returns normally. In the source the disposer is called before the entry is deleted (packages/common/event-listener-map.service.ts:64-65), so a disposer that throws leaves the entry in place, and a later `unlisten` of the same pair calls that disposer again. `DisposedAtMostOnce` and `AccountedHolds` (no disposer invoked twice) hold only under this assumption. The invoke-then-delete order is kept in the method body, but a disposer here is a token that cannot fail or re-enter the service, so the contract cannot observe the order.
- EventListenerMapService.Listen: the model assumes that `renderer.listen` returns normally. The source creates the empty inner table for a new type (lines 29-31) before it calls `renderer.listen` (line 34). If that call throws, the type stays a key with no entry for the listener. That state is not reachable by any history in the model, so `ReplayKeys` (the keys are exactly the types of completed `listen` calls) also holds only under this assumption.
- `listen` takes a renderer per call. Disposers are distinct only per renderer instance, so the at-most-once lemmas take distinctness of the handed-out disposers as a precondition rather than deriving it for several renderers.
- `packages/textfield/src/textfield.domain.ts` (interfaces only), `packages/textfield/src/textfield.module.ts` and `packages/textfield/rollup.config.js` (framework and build configuration) have no behaviour to model.

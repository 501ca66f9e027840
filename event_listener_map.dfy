/**
 The service itself: an object holding the two-level table in a field and
 updating it in place. `Listen` subscribes through a renderer and stores the
 disposer it gets back; `Unlisten` invokes and forgets the stored disposer.
 The ghost field `invoked` logs every disposer invocation in order, and the
 ghost field `history` records the calls made so far, so that the object's
 state can be read through ListenerHistory.
 */
module EventListenerMap {
  import opened ListenerRegistry
  import opened ListenerHistory

  /** One DOM subscription made by the renderer. */
  datatype Subscription<T, L> = Subscription(target: T, t: string, l: L, d: Disposer)

  /** The framework renderer, reduced to its subscription primitive. The
      actual DOM subscription is not modelled: each call is logged and answered
      with a disposer token this renderer has never handed out before. */
  class Renderer<T, L> {
    var nextId: nat
    ghost var subscriptions: seq<Subscription<T, L>>

    /** Every disposer handed out so far is numbered below nextId. */
    ghost predicate Valid()
      reads this
    {
      forall i :: 0 <= i < |subscriptions| ==> subscriptions[i].d.id < nextId
    }

    constructor ()
      ensures Valid()
      ensures nextId == 0 && subscriptions == []
    {
      nextId := 0;
      subscriptions := [];
    }

    method Listen(target: T, t: string, l: L) returns (d: Disposer)
      requires Valid()
      modifies this
      ensures Valid()
      ensures d == Disposer(old(nextId)) && nextId == old(nextId) + 1
      ensures subscriptions == old(subscriptions) + [Subscription(target, t, l, d)]
      ensures forall i :: 0 <= i < |old(subscriptions)| ==> old(subscriptions)[i].d != d
    {
      d := Disposer(nextId);
      nextId := nextId + 1;
      subscriptions := subscriptions + [Subscription(target, t, l, d)];
    }
  }

  class EventListenerMapService<L(==, !new)> {
    /** event type -> (listener -> disposer) */
    var listenersMap: Registry<L>
    /** the disposers invoked so far, in order */
    ghost var invoked: seq<Disposer>
    /** the calls made so far, each `listen` with the disposer it stored */
    ghost var history: seq<Op<L>>

    ghost predicate Valid()
      reads this
    {
      listenersMap == Replay(history) && invoked == Disposals(history)
    }

    constructor ()
      ensures Valid() && IssuedBelow(history, 0)
      ensures listenersMap == map[] && invoked == [] && history == []
    {
      listenersMap := map[];
      invoked := [];
      history := [];
    }

    /** Subscribes l to events t on target and remembers the disposer under
        (t, l), overwriting (without invoking) any disposer stored there. */
    method Listen<T>(renderer: Renderer<T, L>, target: T, t: string, l: L)
      requires Valid() && renderer.Valid()
      modifies this, renderer
      ensures Valid() && renderer.Valid()
      ensures renderer.nextId == old(renderer.nextId) + 1
      ensures renderer.subscriptions
           == old(renderer.subscriptions) + [Subscription(target, t, l, Disposer(old(renderer.nextId)))]
      ensures listenersMap == Register(old(listenersMap), t, l, Disposer(old(renderer.nextId)))
      ensures invoked == old(invoked)
      ensures history == old(history) + [ListenOp(t, l, Disposer(old(renderer.nextId)))]
      ensures IssuedBelow(old(history), old(renderer.nextId)) ==> IssuedBelow(history, renderer.nextId)
    {
      ghost var before := listenersMap;
      if t !in listenersMap {
        listenersMap := listenersMap[t := map[]];
      }
      var unlistener := renderer.Listen(target, t, l);
      listenersMap := listenersMap[t := listenersMap[t][l := unlistener]];
      RegisterInTwoSteps(before, t, l, unlistener);
      ListenStep(history, t, l, unlistener);
      history := history + [ListenOp(t, l, unlistener)];
      if IssuedBelow(old(history), old(renderer.nextId)) {
        ListenKeepsIssuedBelow(old(history), t, l, old(renderer.nextId));
      }
    }

    /** Invokes and forgets the disposer stored under (t, l); a missing type or
        a missing listener makes it do nothing at all. */
    method Unlisten(t: string, l: L)
      requires Valid()
      modifies this
      ensures Valid()
      ensures listenersMap == Unregister(old(listenersMap), t, l)
      ensures old(Lookup(listenersMap, t, l)).None? ==> listenersMap == old(listenersMap) && invoked == old(invoked)
      ensures old(Lookup(listenersMap, t, l)).Some? ==> invoked == old(invoked) + [old(Lookup(listenersMap, t, l)).value]
      ensures history == old(history) + [UnlistenOp(t, l)]
      ensures Issued(history) == old(Issued(history))
    {
      StepOnce(history, UnlistenOp(t, l));
      history := history + [UnlistenOp(t, l)];
      if t !in listenersMap {
        return;
      }
      var listeners := listenersMap[t];
      if l !in listeners {
        return;
      }
      invoked := invoked + [listeners[l]];
      listenersMap := listenersMap[t := listeners - {l}];
    }
  }

  /** Example (not a member of the service): one listener under two event
      types; removing it from "focus" disposes
      only the focus subscription; the blur one stays until its own removal. */
  method SameListenerTwoTypes<T, L(==, !new)>(input: T, handler: L)
  {
    var renderer := new Renderer<T, L>();
    var service := new EventListenerMapService<L>();
    service.Listen(renderer, input, "focus", handler);
    service.Listen(renderer, input, "blur", handler);
    service.Unlisten("focus", handler);
    assert service.invoked == [Disposer(0)];
    assert Lookup(service.listenersMap, "blur", handler) == Some(Disposer(1));
    service.Unlisten("blur", handler);
    assert service.invoked == [Disposer(0), Disposer(1)];
  }

  /** Example (not a member of the service): two listeners under one event
      type; removing the first leaves the
      second subscribed; removing the first again does nothing. */
  method TwoListenersOneType<T, L(==, !new)>(input: T, first: L, second: L)
    requires first != second
  {
    var renderer := new Renderer<T, L>();
    var service := new EventListenerMapService<L>();
    service.Listen(renderer, input, "input", first);
    service.Listen(renderer, input, "input", second);
    service.Unlisten("input", first);
    assert service.invoked == [Disposer(0)];
    assert Lookup(service.listenersMap, "input", second) == Some(Disposer(1));
    service.Unlisten("input", first);
    assert service.invoked == [Disposer(0)];
    assert "input" in service.listenersMap;
  }
}

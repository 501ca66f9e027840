/**
 The registry seen through the sequence of `listen` / `unlisten` calls that
 built it. `Replay` folds the calls with the one-step semantics of
 ListenerRegistry; `Latest` is an independent, history-based statement of
 "registered and not yet deregistered"; `Disposals` is the order in which
 `unlisten` invoked stored disposers. The lemmas connect the two readings and
 show that a disposer is invoked at most once when the renderer hands out
 distinct disposers.
 */
module ListenerHistory {
  import opened ListenerRegistry

  /** One call on the registry; a `listen` carries the disposer that the
      renderer returned for it. */
  datatype Op<L> = ListenOp(t: string, l: L, d: Disposer) | UnlistenOp(t: string, l: L)

  /** The registry together with the disposers invoked so far, in order. */
  datatype Trace<L> = Trace(registry: Registry<L>, disposals: seq<Disposer>)

  /** The disposer `unlisten(t, l)` invokes on `reg`: the stored one, if any.
      This is `Lookup` written as a log fragment of length 0 or 1, so that
      `Step` can append it to the disposals. */
  function Invoked<L(==, !new)>(reg: Registry<L>, t: string, l: L): seq<Disposer>
  {
    match Lookup(reg, t, l)
    case Some(d) => [d]
    case None => []
  }

  /** One call: `listen` stores its disposer and invokes none; `unlisten`
      invokes the stored disposer, if any, and forgets it. */
  function Step<L(==, !new)>(s: Trace<L>, op: Op<L>): Trace<L>
  {
    match op
    case ListenOp(t, l, d) => Trace(Register(s.registry, t, l, d), s.disposals)
    case UnlistenOp(t, l) => Trace(Unregister(s.registry, t, l), s.disposals + Invoked(s.registry, t, l))
  }

  /** The calls `ops` run from the empty registry the service is constructed
      with. */
  function Run<L(==, !new)>(ops: seq<Op<L>>): Trace<L>
  {
    if ops == [] then Trace(map[], []) else Step(Run(ops[..|ops| - 1]), ops[|ops| - 1])
  }

  /** The registry after the calls `ops`. */
  function Replay<L(==, !new)>(ops: seq<Op<L>>): Registry<L>
  {
    Run(ops).registry
  }

  /** Every disposer invoked by the calls `ops`, in order. */
  function Disposals<L(==, !new)>(ops: seq<Op<L>>): seq<Disposer>
  {
    Run(ops).disposals
  }

  /** Every disposer the renderer handed out to `listen`, in order. */
  function Issued<L>(ops: seq<Op<L>>): seq<Disposer>
  {
    if ops == [] then []
    else
      var prefix := ops[..|ops| - 1];
      var last := ops[|ops| - 1];
      Issued(prefix) + (if last.ListenOp? then [last.d] else [])
  }

  /** Reference reading of the registry: the pair (t, l) holds disposer d
      exactly when the latest call about (t, l) was a `listen` that got d. */
  function Latest<L(==)>(ops: seq<Op<L>>, t: string, l: L): Option<Disposer>
  {
    if ops == [] then None
    else
      var last := ops[|ops| - 1];
      if last.t == t && last.l == l then
        (if last.ListenOp? then Some(last.d) else None)
      else Latest(ops[..|ops| - 1], t, l)
  }

  /** The event types some `listen` call has used. */
  function ListenedTypes<L>(ops: seq<Op<L>>): set<string>
  {
    set i | 0 <= i < |ops| && ops[i].ListenOp? :: ops[i].t
  }

  predicate Distinct<X(==)>(s: seq<X>)
  {
    forall i, j :: 0 <= i < j < |s| ==> s[i] != s[j]
  }

  /** A pair is present in the registry if and only if it was registered and
      not deregistered since, and it holds the disposer of its latest `listen`. */
  lemma {:induction false} ReplayIsLatest<L(!new)>(ops: seq<Op<L>>, t: string, l: L)
    ensures Lookup(Replay(ops), t, l) == Latest(ops, t, l)
  {
    if ops != [] {
      ReplayIsLatest(ops[..|ops| - 1], t, l);
    }
  }

  /** Event types are never removed: the outer keys are exactly the types that
      were ever listened to, whatever `unlisten` calls followed. */
  lemma {:induction false} ReplayKeys<L(!new)>(ops: seq<Op<L>>)
    ensures Replay(ops).Keys == ListenedTypes(ops)
  {
    if ops != [] {
      var prefix, last := ops[..|ops| - 1], ops[|ops| - 1];
      ReplayKeys(prefix);
      assert ListenedTypes(ops) == ListenedTypes(prefix) + (if last.ListenOp? then {last.t} else {}) by {
        forall x | x in ListenedTypes(ops)
          ensures x in ListenedTypes(prefix) + (if last.ListenOp? then {last.t} else {})
        {
          var i :| 0 <= i < |ops| && ops[i].ListenOp? && ops[i].t == x;
          if i < |prefix| {
            assert prefix[i] == ops[i];
          }
        }
        forall x | x in ListenedTypes(prefix) ensures x in ListenedTypes(ops) {
          var i :| 0 <= i < |prefix| && prefix[i].ListenOp? && prefix[i].t == x;
          assert ops[i] == prefix[i];
        }
      }
    }
  }

  /** Each call of `listen` and `unlisten` is one step of the fold. */
  lemma StepOnce<L(!new)>(ops: seq<Op<L>>, op: Op<L>)
    ensures Run(ops + [op]) == Step(Run(ops), op)
    ensures Issued(ops + [op]) == Issued(ops) + (if op.ListenOp? then [op.d] else [])
  {
    assert (ops + [op])[..|ops|] == ops;
  }

  /** A `listen` call is a Register step that invokes nothing and hands
      out one disposer. This is `StepOnce` for a `ListenOp`, stated through
      `Replay` and `Disposals` so that the service's `Listen` can use it
      without unfolding `Step`. */
  lemma ListenStep<L(!new)>(ops: seq<Op<L>>, t: string, l: L, d: Disposer)
    ensures Replay(ops + [ListenOp(t, l, d)]) == Register(Replay(ops), t, l, d)
    ensures Disposals(ops + [ListenOp(t, l, d)]) == Disposals(ops)
    ensures Issued(ops + [ListenOp(t, l, d)]) == Issued(ops) + [d]
  {
    StepOnce(ops, ListenOp(t, l, d));
  }

  /** A `listen` of (t, l) followed by `unlisten` of (t, l) invokes exactly the
      disposer that the `listen` stored, once, and nothing else. */
  lemma ListenThenUnlisten<L(!new)>(ops: seq<Op<L>>, t: string, l: L, d: Disposer)
    ensures Disposals(ops + [ListenOp(t, l, d), UnlistenOp(t, l)]) == Disposals(ops) + [d]
    ensures Lookup(Replay(ops + [ListenOp(t, l, d), UnlistenOp(t, l)]), t, l) == None
  {
    StepOnce(ops, ListenOp(t, l, d));
    StepOnce(ops + [ListenOp(t, l, d)], UnlistenOp(t, l));
    assert ops + [ListenOp(t, l, d), UnlistenOp(t, l)] == ops + [ListenOp(t, l, d)] + [UnlistenOp(t, l)];
  }

  /** The bookkeeping that makes disposers single-use: every invoked disposer
      was issued, none is invoked twice, none still stored has been invoked,
      every stored disposer was issued, and no disposer is stored under two
      pairs. */
  ghost predicate Accounted<L(!new)>(ops: seq<Op<L>>)
  {
    var reg, ds, issued := Replay(ops), Disposals(ops), Issued(ops);
    && (forall i :: 0 <= i < |ds| ==> ds[i] in issued)
    && Distinct(ds)
    && (forall t, l :: Lookup(reg, t, l).Some? ==> Lookup(reg, t, l).value !in ds && Lookup(reg, t, l).value in issued)
    && (forall t1, l1, t2, l2 ::
          Lookup(reg, t1, l1).Some? && Lookup(reg, t1, l1) == Lookup(reg, t2, l2) ==> t1 == t2 && l1 == l2)
  }

  lemma {:induction false} AccountedHolds<L(!new)>(ops: seq<Op<L>>)
    requires Distinct(Issued(ops))
    ensures Accounted(ops)
  {
    if ops == [] {
      return;
    }
    var prefix, op := ops[..|ops| - 1], ops[|ops| - 1];
    assert ops == prefix + [op];
    StepOnce(prefix, op);
    var reg, ds, issued := Replay(prefix), Disposals(prefix), Issued(prefix);
    assert Distinct(issued) by {
      forall i, j | 0 <= i < j < |issued| ensures issued[i] != issued[j] {
        assert Issued(ops)[i] == issued[i] && Issued(ops)[j] == issued[j];
      }
    }
    AccountedHolds(prefix);
    var reg' := Replay(ops);
    match op {
      case ListenOp(t, l, d) =>
        assert d !in issued by {
          forall i | 0 <= i < |issued| ensures issued[i] != d {
            assert Issued(ops)[i] == issued[i] && Issued(ops)[|issued|] == d;
          }
        }
        assert Disposals(ops) == ds;
        forall t', l' | Lookup(reg', t', l').Some?
          ensures Lookup(reg', t', l').value !in ds && Lookup(reg', t', l').value in Issued(ops)
        {
          if t' != t || l' != l {
            assert Lookup(reg', t', l') == Lookup(reg, t', l');
          }
        }
      case UnlistenOp(t, l) =>
        match Lookup(reg, t, l) {
          case None =>
            assert reg' == reg;
          case Some(gone) =>
            assert Disposals(ops) == ds + [gone];
            forall t', l' | Lookup(reg', t', l').Some?
              ensures Lookup(reg', t', l').value != gone
            {
              assert t' != t || l' != l;
              assert Lookup(reg', t', l') == Lookup(reg, t', l');
            }
            assert Distinct(ds + [gone]) by {
              forall i, j | 0 <= i < j < |ds| + 1 ensures (ds + [gone])[i] != (ds + [gone])[j] {
                if j == |ds| {
                  assert (ds + [gone])[i] == ds[i];
                }
              }
            }
        }
    }
  }

  /** Provided the renderer hands out a distinct disposer to each `listen`,
      no disposer is ever invoked twice, and every invoked disposer is one the
      renderer handed out. */
  lemma DisposedAtMostOnce<L(!new)>(ops: seq<Op<L>>)
    requires Distinct(Issued(ops))
    ensures Distinct(Disposals(ops))
    ensures forall i :: 0 <= i < |Disposals(ops)| ==> Disposals(ops)[i] in Issued(ops)
  {
    AccountedHolds(ops);
  }

  /** The disposers handed out over two runs of calls, one after the other. */
  lemma {:induction false} IssuedAppend<L>(p: seq<Op<L>>, q: seq<Op<L>>)
    ensures Issued(p + q) == Issued(p) + Issued(q)
  {
    if q != [] {
      var q0, op := q[..|q| - 1], q[|q| - 1];
      assert p + q == (p + q0) + [op];
      assert (p + q)[..|p + q| - 1] == p + q0;
      IssuedAppend(p, q0);
    } else {
      assert p + q == p;
    }
  }

  /** A disposer that is neither stored nor invoked, and that later `listen`
      calls do not hand out again, stays so whatever calls follow. */
  lemma {:induction false} StaysForgotten<L(!new)>(prefix: seq<Op<L>>, rest: seq<Op<L>>, d: Disposer)
    requires forall t, l :: Lookup(Replay(prefix), t, l) != Some(d)
    requires d !in Disposals(prefix)
    requires d !in Issued(rest)
    ensures forall t, l :: Lookup(Replay(prefix + rest), t, l) != Some(d)
    ensures d !in Disposals(prefix + rest)
  {
    if rest != [] {
      var r0, op := rest[..|rest| - 1], rest[|rest| - 1];
      assert rest == r0 + [op];
      assert prefix + rest == (prefix + r0) + [op];
      StepOnce(r0, op);
      StaysForgotten(prefix, r0, d);
      StepOnce(prefix + r0, op);
      var before := Replay(prefix + r0);
      match op {
        case ListenOp(t', l', d') =>
          assert d' != d;
          forall t1, l1 ensures Lookup(Replay(prefix + rest), t1, l1) != Some(d) {
            if t1 != t' || l1 != l' {
              assert Lookup(Replay(prefix + rest), t1, l1) == Lookup(before, t1, l1);
            }
          }
        case UnlistenOp(t', l') =>
          assert d !in Invoked(before, t', l');
          forall t1, l1 ensures Lookup(Replay(prefix + rest), t1, l1) != Some(d) {
            if t1 != t' || l1 != l' {
              assert Lookup(Replay(prefix + rest), t1, l1) == Lookup(before, t1, l1);
            }
          }
      }
    } else {
      assert prefix + rest == prefix;
    }
  }

  /** A disposer dropped by a second `listen` of the same pair is never
      invoked afterwards, whatever calls follow: the first subscription is
      leaked. */
  lemma OverwrittenNeverDisposed<L(!new)>(ops: seq<Op<L>>, t: string, l: L, d1: Disposer, d2: Disposer, rest: seq<Op<L>>)
    requires Distinct(Issued(ops + [ListenOp(t, l, d1), ListenOp(t, l, d2)] + rest))
    ensures d1 !in Disposals(ops + [ListenOp(t, l, d1), ListenOp(t, l, d2)] + rest)
    ensures forall t', l' :: Lookup(Replay(ops + [ListenOp(t, l, d1), ListenOp(t, l, d2)] + rest), t', l') != Some(d1)
  {
    var once := ops + [ListenOp(t, l, d1)];
    var twice := once + [ListenOp(t, l, d2)];
    assert ops + [ListenOp(t, l, d1), ListenOp(t, l, d2)] == twice;
    ListenStep(ops, t, l, d1);
    ListenStep(once, t, l, d2);
    IssuedAppend(twice, rest);
    var all := Issued(twice + rest);
    var n := |Issued(ops)|;
    assert all[n] == d1 && all[n + 1] == d2;
    assert Distinct(Issued(once)) by {
      forall i, j | 0 <= i < j < |Issued(once)| ensures Issued(once)[i] != Issued(once)[j] {
        assert all[i] == Issued(once)[i] && all[j] == Issued(once)[j];
      }
    }
    assert d1 !in Issued(rest) by {
      forall i | 0 <= i < |Issued(rest)| ensures Issued(rest)[i] != d1 {
        assert all[n + 2 + i] == Issued(rest)[i];
      }
    }
    AccountedHolds(once);
    assert Lookup(Replay(once), t, l) == Some(d1);
    assert d1 !in Disposals(twice);
    forall t', l' ensures Lookup(Replay(twice), t', l') != Some(d1) {
      if t' != t || l' != l {
        assert Lookup(Replay(twice), t', l') == Lookup(Replay(once), t', l');
      }
    }
    StaysForgotten(twice, rest, d1);
  }

  /** Every disposer handed out to `ops` is distinct and numbered below n. */
  ghost predicate IssuedBelow<L>(ops: seq<Op<L>>, n: nat)
  {
    && Distinct(Issued(ops))
    && forall i :: 0 <= i < |Issued(ops)| ==> Issued(ops)[i].id < n
  }

  /** A `listen` that stores the disposer numbered n keeps the disposers
      distinct, now all numbered below n + 1. */
  lemma ListenKeepsIssuedBelow<L(!new)>(ops: seq<Op<L>>, t: string, l: L, n: nat)
    requires IssuedBelow(ops, n)
    ensures IssuedBelow(ops + [ListenOp(t, l, Disposer(n))], n + 1)
  {
    StepOnce(ops, ListenOp(t, l, Disposer(n)));
  }
}

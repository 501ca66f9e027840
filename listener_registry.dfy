/**
 The value-level meaning of the event-listener registry: a two-level table
 from event type to (listener -> disposer). `Register` is what one `listen`
 call does to the table, `Unregister` what one `unlisten` call does, and
 `Lookup` is the disposer (if any) that `unlisten` would invoke.
 */
module ListenerRegistry {

  datatype Option<+T> = None | Some(value: T)

  /** The removal handle returned by the renderer's subscription primitive.
      Calling it severs the DOM subscription; here it is an opaque token. */
  datatype Disposer = Disposer(id: nat)

  /** event type -> (listener -> disposer) */
  type Registry<L> = map<string, map<L, Disposer>>

  /** The disposer stored for the pair (t, l), if the pair is registered. */
  function Lookup<L(==, !new)>(reg: Registry<L>, t: string, l: L): Option<Disposer>
  {
    if t in reg && l in reg[t] then Some(reg[t][l]) else None
  }

  /** The registry after `listen` has stored disposer d for (t, l): an empty
      inner table is created for t only when t is absent, and an existing entry
      for (t, l) is overwritten without further ado. */
  function Register<L(==, !new)>(reg: Registry<L>, t: string, l: L, d: Disposer): (r: Registry<L>)
    ensures r.Keys == reg.Keys + {t}
    ensures Lookup(r, t, l) == Some(d)
    ensures forall t', l' :: (t' != t || l' != l) ==> Lookup(r, t', l') == Lookup(reg, t', l')
    ensures forall t' :: t' != t && t' in reg ==> r[t'] == reg[t']
    ensures t !in reg ==> r[t] == map[l := d]
    ensures t in reg ==> r[t].Keys == reg[t].Keys + {l}
  {
    var inner := if t in reg then reg[t] else map[];
    reg[t := inner[l := d]]
  }

  /** The registry after `unlisten(t, l)`: a missing type or a missing
      listener leaves it as it is; otherwise only the pair (t, l) disappears,
      and the type t stays a key even when its inner table becomes empty. */
  function Unregister<L(==, !new)>(reg: Registry<L>, t: string, l: L): (r: Registry<L>)
    ensures r.Keys == reg.Keys
    ensures Lookup(r, t, l) == None
    ensures forall t', l' :: (t' != t || l' != l) ==> Lookup(r, t', l') == Lookup(reg, t', l')
    ensures forall t' :: t' != t && t' in reg ==> r[t'] == reg[t']
    ensures Lookup(reg, t, l) == None ==> r == reg
    ensures t in reg ==> r[t].Keys == reg[t].Keys - {l}
  {
    if t !in reg then reg
    else if l !in reg[t] then reg
    else reg[t := reg[t] - {l}]
  }

  /** `unlisten` is idempotent: a second call finds no listener, so it
      invokes nothing and changes nothing. */
  lemma UnregisterIdempotent<L(!new)>(reg: Registry<L>, t: string, l: L)
    ensures Lookup(Unregister(reg, t, l), t, l) == None
    ensures Unregister(Unregister(reg, t, l), t, l) == Unregister(reg, t, l)
  {
  }

  /** A second registration of the same pair replaces the first disposer:
      only the second one is there to be invoked, the first is dropped. */
  lemma RegisterOverwrites<L(!new)>(reg: Registry<L>, t: string, l: L, d1: Disposer, d2: Disposer)
    ensures Register(Register(reg, t, l, d1), t, l, d2) == Register(reg, t, l, d2)
    ensures Lookup(Register(Register(reg, t, l, d1), t, l, d2), t, l) == Some(d2)
  {
    var once, twice, direct := Register(reg, t, l, d1), Register(Register(reg, t, l, d1), t, l, d2), Register(reg, t, l, d2);
    assert twice[t] == direct[t] by {
      var inner := if t in reg then reg[t] else map[];
      assert once[t] == inner[l := d1];
      assert twice[t] == inner[l := d1][l := d2] == inner[l := d2];
    }
  }

  /** `listen` updates the table in two steps, first creating the inner
      table for t when t is absent, then storing d in it; together they
      amount to Register. */
  lemma RegisterInTwoSteps<L(!new)>(reg: Registry<L>, t: string, l: L, d: Disposer)
    ensures var created := if t in reg then reg else reg[t := map[]];
      created[t := created[t][l := d]] == Register(reg, t, l, d)
  {
  }
}

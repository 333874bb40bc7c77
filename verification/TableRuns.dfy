/**
 Address-space isolation over whole runs: table creations and user mappings in any order, through
 tables that all share the kernel's lower-level nodes.
 */
module TableRuns {
  import opened Base
  import opened PageTable

  /** The kernel's forest and the roots handed out so far by `vm_create_agent_pt`. */
  datatype Tables = Tables(f: Forest, roots: seq<nat>)

  datatype Event = CreateTable | MapUser(table: nat, va: nat, pa: nat, perm: Perm)

  function Step(t: Tables, e: Event): Tables {
    match e
    case CreateTable =>
      var (f, c) := CreateRoot(t.f);
      if c.Some? then Tables(f, t.roots + [c.value]) else t.(f := f)
    case MapUser(k, va, pa, perm) =>
      if k < |t.roots| then t.(f := MapPage(t.f, t.roots[k], va, pa, perm).0) else t
  }

  function Run(t: Tables, es: seq<Event>): Tables {
    if es == [] then t else Step(Run(t, es[..|es| - 1]), es[|es| - 1])
  }

  ghost predicate Valid(t: Tables) {
    && Good(t.f, set r | r in t.roots)
    && Distinct(t.roots) && t.f.kroot !in t.roots
  }

  /** Every mapping lies under a root slot that the kernel leaves empty. */
  ghost predicate UserSlots(t: Tables, es: seq<Event>) {
    forall e | e in es && e.MapUser? :: !Entry(t.f, t.f.kroot, Index(VpnOf(e.va), 2)).valid
  }

  predicate Succeeds(t: Tables, e: Event)
    requires e.MapUser?
  {
    e.table < |t.roots| && MapPage(t.f, t.roots[e.table], e.va, e.pa, e.perm).1 == 0
  }

  /**
   The view of table k as if it were alone: the kernel's translations at the time of its creation,
   then its own successful mappings and nobody else's.
   */
  function Alone(t: Tables, es: seq<Event>, k: nat, v: nat): Option<Pte> {
    if es == [] then
      if k < |t.roots| then Lookup(t.f, t.roots[k], v) else None
    else
      var before := es[..|es| - 1];
      var now := Run(t, before);
      match es[|es| - 1]
      case CreateTable =>
        if k == |now.roots| && CreateRoot(now.f).1.Some? then Lookup(t.f, t.f.kroot, v) else Alone(t, before, k, v)
      case MapUser(j, va, pa, perm) =>
        if j == k && VpnOf(va) == v && Succeeds(now, es[|es| - 1]) then Some(Leaf(pa / PAGE_SIZE, perm))
        else Alone(t, before, k, v)
  }

  lemma GoodIncludesKernel(f: Forest, roots: set<nat>)
    requires Good(f, roots)
    ensures Good(f, roots + {f.kroot})
  {
    var own: map<nat, Owner> :| Inv(f, own) && Owns(own, roots);
    assert Owns(own, roots + {f.kroot});
  }

  /** One mapping through table k, under a slot the kernel leaves empty, is seen by table k only. */
  lemma UserMapIsolated(t: Tables, e: Event, r: nat, v: nat)
    requires Valid(t) && e.MapUser? && e.table < |t.roots|
    requires !Entry(t.f, t.f.kroot, Index(VpnOf(e.va), 2)).valid
    requires r in t.roots || r == t.f.kroot
    requires v < VPN_COUNT
    ensures Valid(Step(t, e)) && Step(t, e).f.kroot == t.f.kroot
    ensures Lookup(Step(t, e).f, r, v) ==
            if r == t.roots[e.table] && v == VpnOf(e.va) && Succeeds(t, e)
            then Some(Leaf(e.pa / PAGE_SIZE, e.perm)) else Lookup(t.f, r, v)
    ensures forall i: nat :: Entry(Step(t, e).f, t.f.kroot, i) == Entry(t.f, t.f.kroot, i)
  {
    hide Good, Lookup, Index, VpnOf, Entry, MapPage;
    var roots := set r | r in t.roots;
    var root := t.roots[e.table];
    GoodIncludesKernel(t.f, roots);
    MapPageRefines(t.f, roots, root, e.va, e.pa, e.perm);
    MapPageRefines(t.f, roots + {t.f.kroot}, root, e.va, e.pa, e.perm);
    if r != root {
      EmptyKernelSlotIsPrivate(t.f, roots + {t.f.kroot}, root, r, Index(VpnOf(e.va), 2));
    }
  }

  /**
   Isolation: after any such run the kernel translates as before, and every agent's table translates
   exactly as if it had run alone.
   */
  lemma {:induction false} IsolationOverRuns(t: Tables, es: seq<Event>)
    requires Valid(t) && UserSlots(t, es)
    ensures Valid(Run(t, es)) && Run(t, es).f.kroot == t.f.kroot
    ensures forall i: nat :: Entry(Run(t, es).f, t.f.kroot, i) == Entry(t.f, t.f.kroot, i)
    ensures forall v: nat | v < VPN_COUNT :: Lookup(Run(t, es).f, t.f.kroot, v) == Lookup(t.f, t.f.kroot, v)
    ensures forall k: nat, v: nat | k < |Run(t, es).roots| && v < VPN_COUNT ::
              Lookup(Run(t, es).f, Run(t, es).roots[k], v) == Alone(t, es, k, v)
  {
    if es != [] {
      var before, e := es[..|es| - 1], es[|es| - 1];
      IsolationOverRuns(t, before);
      var now, after := Run(t, before), Run(t, es);
      if e.CreateTable? {
        CreateRootCopies(now.f, set r | r in now.roots);
        assert CreateRoot(now.f).1.Some? ==>
            (set r | r in after.roots) == (set r | r in now.roots) + {CreateRoot(now.f).1.value};
      } else if e.table < |now.roots| {
        forall r: nat, v: nat | (r in now.roots || r == now.f.kroot) && v < VPN_COUNT
          ensures Lookup(after.f, r, v) ==
                  if r == now.roots[e.table] && v == VpnOf(e.va) && Succeeds(now, e)
                  then Some(Leaf(e.pa / PAGE_SIZE, e.perm)) else Lookup(now.f, r, v)
        {
          UserMapIsolated(now, e, r, v);
        }
        UserMapIsolated(now, e, now.f.kroot, 0);
      }
    }
  }
}

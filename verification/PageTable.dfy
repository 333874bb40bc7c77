/**
 The Sv39 page tables of kernel/vm.c as a forest of 512-entry nodes.

 Nodes are named by their physical page number, as the table entries name them.  All nodes other
 than the kernel's root come from the bump pool `pt_storage`; an agent's root starts as a copy of the
 kernel's root, so agents share every lower-level node the kernel had at that moment.
 */
module PageTable {
  import opened Base

  const ENTRIES := 512
  const PT_PAGES := 64
  const POOL_PPN := 0x80800
  const VPN_COUNT := 0x800_0000

  datatype Perm = Perm(r: bool, w: bool, x: bool, u: bool)
  datatype Pte = Pte(valid: bool, ppn: nat, perm: Perm)

  const NoPerm := Perm(false, false, false, false)
  const EmptyPte := Pte(false, 0, NoPerm)

  function EmptyNode(): seq<Pte> {
    seq(ENTRIES, _ => EmptyPte)
  }

  function Pointer(child: nat): Pte {
    Pte(true, child, NoPerm)
  }

  function Leaf(ppn: nat, perm: Perm): Pte {
    Pte(true, ppn, perm)
  }

  datatype Forest = Forest(nodes: map<nat, seq<Pte>>, next: nat, kroot: nat)

  // ---------------------------------------------------------------- addresses

  function VpnOf(va: nat): (vpn: nat)
    ensures vpn < VPN_COUNT
  {
    va / PAGE_SIZE % VPN_COUNT
  }

  function Index(vpn: nat, level: nat): (i: nat)
    ensures i < ENTRIES
  {
    if level == 2 then vpn / 0x4_0000 % ENTRIES
    else if level == 1 then vpn / 0x200 % ENTRIES
    else vpn % ENTRIES
  }

  lemma IndexInjective(v: nat, w: nat)
    requires v < VPN_COUNT && w < VPN_COUNT
    ensures Index(v, 2) == Index(w, 2) && Index(v, 1) == Index(w, 1) && Index(v, 0) == Index(w, 0) <==> v == w
  {
    assert v == v / 0x4_0000 * 0x4_0000 + v / 0x200 % 0x200 * 0x200 + v % 0x200;
    assert w == w / 0x4_0000 * 0x4_0000 + w / 0x200 % 0x200 * 0x200 + w % 0x200;
  }

  // ---------------------------------------------------------------- walking

  function Entry(f: Forest, n: nat, i: nat): Pte {
    if n in f.nodes && i < |f.nodes[n]| then f.nodes[n][i] else EmptyPte
  }

  function Child(f: Forest, n: nat, i: nat): Option<nat> {
    if Entry(f, n, i).valid then Some(Entry(f, n, i).ppn) else None
  }

  /** The level-0 node that `vm_walk` without allocation ends in. */
  function LowNode(f: Forest, root: nat, vpn: nat): Option<nat> {
    match Child(f, root, Index(vpn, 2))
    case None => None
    case Some(mid) => Child(f, mid, Index(vpn, 1))
  }

  /** The translation of a page number through a root: its valid leaf entry, if there is one. */
  function Lookup(f: Forest, root: nat, vpn: nat): Option<Pte> {
    match LowNode(f, root, vpn)
    case None => None
    case Some(low) =>
      if Entry(f, low, Index(vpn, 0)).valid then Some(Entry(f, low, Index(vpn, 0))) else None
  }

  // ---------------------------------------------------------------- operations

  function SetEntry(f: Forest, n: nat, i: nat, p: Pte): Forest {
    if n in f.nodes && i < |f.nodes[n]| then f.(nodes := f.nodes[n := f.nodes[n][i := p]]) else f
  }

  /** `pt_alloc`: the next pool page, zeroed. */
  function Alloc(f: Forest, content: seq<Pte>): (Forest, Option<nat>) {
    if f.next >= PT_PAGES then (f, None)
    else (f.(nodes := f.nodes[POOL_PPN + f.next := content], next := f.next + 1), Some(POOL_PPN + f.next))
  }

  /** One level of `vm_walk` with allocation: follow entry i of node n, creating the child if absent. */
  function Descend(f: Forest, n: nat, i: nat): (Forest, Option<nat>) {
    if Entry(f, n, i).valid then (f, Some(Entry(f, n, i).ppn))
    else
      var (f1, c) := Alloc(f, EmptyNode());
      if c.None? then (f1, None) else (SetEntry(f1, n, i, Pointer(c.value)), c)
  }

  function WalkAlloc(f: Forest, root: nat, vpn: nat): (Forest, Option<nat>) {
    var (f1, mid) := Descend(f, root, Index(vpn, 2));
    if mid.None? then (f1, None) else Descend(f1, mid.value, Index(vpn, 1))
  }

  /** `vm_map_page`. */
  function MapPage(f: Forest, root: nat, va: nat, pa: nat, perm: Perm): (Forest, int) {
    if va % PAGE_SIZE != 0 || pa % PAGE_SIZE != 0 then (f, -1)
    else
      var vpn := VpnOf(va);
      var (f1, low) := WalkAlloc(f, root, vpn);
      if low.None? then (f1, -1)
      else if Entry(f1, low.value, Index(vpn, 0)).valid then (f1, -1)
      else (SetEntry(f1, low.value, Index(vpn, 0), Leaf(pa / PAGE_SIZE, perm)), 0)
  }

  /** `vm_create_agent_pt`: a pool page holding a copy of the kernel's root, once there is one. */
  function CreateRoot(f: Forest): (Forest, Option<nat>) {
    if f.kroot in f.nodes then Alloc(f, f.nodes[f.kroot]) else (Alloc(f, EmptyNode()).0, None)
  }

  // ---------------------------------------------------------------- the forest invariant

  /** Where a node was put when it was allocated: which root, and below which slots. */
  datatype Owner = Root | Mid(root: nat, i2: nat) | Low(root: nat, i2: nat, i1: nat)

  ghost predicate Shape(f: Forest, own: map<nat, Owner>) {
    && own.Keys == f.nodes.Keys
    && (forall n | n in f.nodes :: |f.nodes[n]| == ENTRIES)
    && f.next <= PT_PAGES
    && (forall n | n in f.nodes :: n == f.kroot || POOL_PPN <= n < POOL_PPN + f.next)
    && f.kroot in f.nodes && own[f.kroot] == Root
    && !(POOL_PPN <= f.kroot < POOL_PPN + PT_PAGES)
  }

  /** A valid slot of a root leads to a node of that root, or is a slot still shared with the kernel. */
  ghost predicate RootLink(f: Forest, own: map<nat, Owner>, n: nat, i: nat) {
    var e := Entry(f, n, i);
    e.valid ==>
      && e.ppn in own
      && (own[e.ppn] == Mid(n, i) || (own[e.ppn] == Mid(f.kroot, i) && e == Entry(f, f.kroot, i)))
  }

  ghost predicate MidLink(f: Forest, own: map<nat, Owner>, n: nat, i: nat)
    requires n in own && own[n].Mid?
  {
    var e := Entry(f, n, i);
    e.valid ==> e.ppn in own && own[e.ppn] == Low(own[n].root, own[n].i2, i)
  }

  ghost predicate Inv(f: Forest, own: map<nat, Owner>) {
    && Shape(f, own)
    && (forall n, i | n in own && own[n].Root? && 0 <= i < ENTRIES :: RootLink(f, own, n, i))
    && (forall n, i | n in own && own[n].Mid? && 0 <= i < ENTRIES :: MidLink(f, own, n, i))
  }

  /** Some ownership explains the forest, and `roots` are roots in it. */
  ghost predicate Good(f: Forest, roots: set<nat>) {
    exists own: map<nat, Owner> :: Inv(f, own) && Owns(own, roots)
  }

  ghost predicate Owns(own: map<nat, Owner>, roots: set<nat>) {
    forall r | r in roots :: r in own && own[r] == Root
  }

  ghost function RootsOf(own: map<nat, Owner>): set<nat> {
    set r | r in own && own[r].Root?
  }

  /** Two roots see the same subtree under slot i. */
  predicate SharesSlot(f: Forest, r: nat, s: nat, i: nat) {
    r == s || (Entry(f, r, i).valid && Entry(f, r, i) == Entry(f, s, i))
  }

  // ---------------------------------------------------------------- ownership of reached nodes

  lemma Reach(f: Forest, own: map<nat, Owner>, root: nat, vpn: nat)
    requires Inv(f, own) && root in own && own[root].Root?
    ensures
      var i2, i1 := Index(vpn, 2), Index(vpn, 1);
      match LowNode(f, root, vpn)
      case None => true
      case Some(low) =>
        && low in own
        && (own[low] == Low(root, i2, i1) ||
            (own[low] == Low(f.kroot, i2, i1) && SharesSlot(f, root, f.kroot, i2)))
  {
    var i2, i1 := Index(vpn, 2), Index(vpn, 1);
    assert RootLink(f, own, root, i2);
    if Entry(f, root, i2).valid {
      assert MidLink(f, own, Entry(f, root, i2).ppn, i1);
    }
  }

  // ---------------------------------------------------------------- allocation of a child

  ghost predicate Extends(own: map<nat, Owner>, own': map<nat, Owner>) {
    own.Keys <= own'.Keys && forall m | m in own :: own'[m] == own[m]
  }

  /** What one level of the walk did: nothing, or one fresh empty node linked into an empty entry. */
  ghost predicate Grown(f: Forest, own: map<nat, Owner>, n: nat, i: nat, f': Forest, c: Option<nat>) {
    && f'.kroot == f.kroot
    && f'.next == (if !Entry(f, n, i).valid && f.next < PT_PAGES then f.next + 1 else f.next)
    && (c.None? <==> !Entry(f, n, i).valid && f.next >= PT_PAGES)
    && (c.None? || Entry(f, n, i).valid ==> f' == f)
    && (c.Some? ==> Child(f', n, i) == c)
    && (forall m, j | m in own && !(m == n && j == i) :: Entry(f', m, j) == Entry(f, m, j))
    && (c.Some? && !Entry(f, n, i).valid ==>
          c.value !in own && forall j :: Entry(f', c.value, j) == EmptyPte)
  }

  lemma DescendKeeps(f: Forest, own: map<nat, Owner>, n: nat, i: nat) returns (own': map<nat, Owner>)
    requires Inv(f, own) && n in own && !own[n].Low? && i < ENTRIES
    ensures var (f', c) := Descend(f, n, i);
            && Inv(f', own') && Extends(own, own') && Grown(f, own, n, i, f', c)
            && (c.Some? ==> c.value in own' && (if own[n].Root? then own'[c.value].Mid? else own'[c.value].Low?))
  {
    hide Index, Lookup;
    own' := own;
    if Entry(f, n, i).valid {
      assert if own[n].Root? then RootLink(f, own, n, i) else MidLink(f, own, n, i);
    } else if f.next < PT_PAGES {
      var c := POOL_PPN + f.next;
      own' := own[c := if own[n].Root? then Mid(n, i) else Low(own[n].root, own[n].i2, i)];
      var f' := Descend(f, n, i).0;
      assert c !in f.nodes;
      forall m, j | m in own' && own'[m].Root? && 0 <= j < ENTRIES ensures RootLink(f', own', m, j) {
        assert m in own && RootLink(f, own, m, j);
      }
      forall m, j | m in own' && own'[m].Mid? && 0 <= j < ENTRIES ensures MidLink(f', own', m, j) {
        if m != c {
          assert MidLink(f, own, m, j);
        }
      }
    }
  }

  /** Linking an empty node into an empty entry changes no translation of any root. */
  lemma GrownLookup(f: Forest, own: map<nat, Owner>, n: nat, i: nat, f': Forest, c: Option<nat>, r: nat, v: nat)
    requires Inv(f, own) && n in own && !own[n].Low? && i < ENTRIES
    requires Grown(f, own, n, i, f', c)
    requires r in own && own[r].Root?
    ensures Lookup(f', r, v) == Lookup(f, r, v)
  {
    var i2, i1 := Index(v, 2), Index(v, 1);
    assert RootLink(f, own, r, i2);
    if Entry(f, r, i2).valid {
      var mid := Entry(f, r, i2).ppn;
      assert MidLink(f, own, mid, i1);
    }
  }

  // ---------------------------------------------------------------- the allocating walk

  /** Pool pages the walk to `vpn` still has to take. */
  function Missing(f: Forest, root: nat, vpn: nat): nat {
    match Child(f, root, Index(vpn, 2))
    case None => 2
    case Some(mid) => if Child(f, mid, Index(vpn, 1)).None? then 1 else 0
  }

  lemma WalkKeeps(f: Forest, own: map<nat, Owner>, root: nat, vpn: nat) returns (own': map<nat, Owner>)
    requires Inv(f, own) && root in own && own[root].Root?
    ensures var (f', low) := WalkAlloc(f, root, vpn);
            && Inv(f', own') && Extends(own, own') && f'.kroot == f.kroot
            && (low.Some? <==> f.next + Missing(f, root, vpn) <= PT_PAGES)
            && (low.Some? ==> LowNode(f', root, vpn) == low && low.value in own' && own'[low.value].Low?)
            && (forall r: nat, v: nat | r in own && own[r].Root? :: Lookup(f', r, v) == Lookup(f, r, v))
            && (forall r, i | r in own && own[r].Root? && !(r == root && i == Index(vpn, 2)) ::
                  Entry(f', r, i) == Entry(f, r, i))
            && (forall r | r in own && own[r].Root? ::
                  SharesSlot(f', root, r, Index(vpn, 2)) <==> SharesSlot(f, root, r, Index(vpn, 2)))
  {
    var i2, i1 := Index(vpn, 2), Index(vpn, 1);
    var (f1, mid) := Descend(f, root, i2);
    own' := DescendKeeps(f, own, root, i2);
    forall r: nat, v: nat | r in own && own[r].Root? ensures Lookup(f1, r, v) == Lookup(f, r, v) {
      GrownLookup(f, own, root, i2, f1, mid, r, v);
    }
    forall r | r in own && own[r].Root? ensures SharesSlot(f1, root, r, i2) <==> SharesSlot(f, root, r, i2) {
      assert RootLink(f, own, r, i2);
    }
    if mid.Some? {
      var own1 := own';
      var (f2, low) := Descend(f1, mid.value, i1);
      own' := DescendKeeps(f1, own1, mid.value, i1);
      forall r: nat, v: nat | r in own && own[r].Root? ensures Lookup(f2, r, v) == Lookup(f1, r, v) {
        GrownLookup(f1, own1, mid.value, i1, f2, low, r, v);
      }
    }
  }

  // ---------------------------------------------------------------- writing a leaf

  /** Two roots that reach the same low node share the slot above it. */
  lemma SameLowSharesSlot(f: Forest, own: map<nat, Owner>, r: nat, s: nat, vpn: nat, v: nat)
    requires Inv(f, own) && r in own && own[r].Root? && s in own && own[s].Root?
    requires LowNode(f, r, vpn).Some?
    ensures LowNode(f, s, v) == LowNode(f, r, vpn) <==>
            Index(v, 2) == Index(vpn, 2) && Index(v, 1) == Index(vpn, 1) && SharesSlot(f, r, s, Index(vpn, 2))
  {
    Reach(f, own, r, vpn);
    Reach(f, own, s, v);
  }

  /** A leaf entry written through `root` is seen by exactly the roots that share the slot above it. */
  lemma LeafWritten(f: Forest, own: map<nat, Owner>, root: nat, vpn: nat, p: Pte)
    requires Inv(f, own) && root in own && own[root].Root? && vpn < VPN_COUNT && p.valid
    requires LowNode(f, root, vpn).Some?
    ensures var f' := SetEntry(f, LowNode(f, root, vpn).value, Index(vpn, 0), p);
            && Inv(f', own)
            && (forall r, i | r in own && own[r].Root? :: Entry(f', r, i) == Entry(f, r, i))
            && (forall r: nat, v: nat | r in own && own[r].Root? && v < VPN_COUNT :: Lookup(f', r, v) ==
                  if v == vpn && SharesSlot(f, root, r, Index(vpn, 2)) then Some(p) else Lookup(f, r, v))
  {
    hide Index;
    var low := LowNode(f, root, vpn).value;
    var f' := SetEntry(f, low, Index(vpn, 0), p);
    Reach(f, own, root, vpn);
    forall m, j | m in own && own[m].Root? && 0 <= j < ENTRIES ensures RootLink(f', own, m, j) {
      assert RootLink(f, own, m, j);
    }
    forall m, j | m in own && own[m].Mid? && 0 <= j < ENTRIES ensures MidLink(f', own, m, j) {
      assert MidLink(f, own, m, j);
    }
    forall r: nat, v: nat | r in own && own[r].Root? && v < VPN_COUNT
      ensures Lookup(f', r, v) ==
              if v == vpn && SharesSlot(f, root, r, Index(vpn, 2)) then Some(p) else Lookup(f, r, v)
    {
      Reach(f, own, r, v);
      SameLowSharesSlot(f, own, root, r, vpn, v);
      IndexInjective(v, vpn);
      assert RootLink(f, own, r, Index(v, 2));
      assert LowNode(f', r, v) == LowNode(f, r, v);
    }
  }

  // ---------------------------------------------------------------- mapping one page

  ghost predicate Mapped(f: Forest, root: nat, va: nat, pa: nat, perm: Perm, roots: set<nat>, f': Forest, rc: int) {
    var vpn := VpnOf(va);
    && f'.kroot == f.kroot
    && (rc == 0 <==> va % PAGE_SIZE == 0 && pa % PAGE_SIZE == 0 && Lookup(f, root, vpn).None? &&
                     f.next + Missing(f, root, vpn) <= PT_PAGES)
    && (forall r: nat, v: nat | r in roots && v < VPN_COUNT :: Lookup(f', r, v) ==
          if rc == 0 && v == vpn && SharesSlot(f, root, r, Index(vpn, 2))
          then Some(Leaf(pa / PAGE_SIZE, perm)) else Lookup(f, r, v))
    && (forall r: nat, i: nat | r in roots && !(r == root && i == Index(vpn, 2)) ::
          Entry(f', r, i) == Entry(f, r, i))
  }

  lemma MapPageKeeps(f: Forest, own: map<nat, Owner>, root: nat, va: nat, pa: nat, perm: Perm)
    returns (own': map<nat, Owner>)
    requires Inv(f, own) && root in own && own[root].Root?
    ensures var (f', rc) := MapPage(f, root, va, pa, perm);
            && Inv(f', own') && Extends(own, own')
            && Mapped(f, root, va, pa, perm, RootsOf(own), f', rc)
  {
    hide Inv, WalkAlloc, Index, VpnOf, Missing;
    var vpn := VpnOf(va);
    own' := own;
    if va % PAGE_SIZE == 0 && pa % PAGE_SIZE == 0 {
      var (f1, low) := WalkAlloc(f, root, vpn);
      own' := WalkKeeps(f, own, root, vpn);
      if low.Some? && !Entry(f1, low.value, Index(vpn, 0)).valid {
        LeafWritten(f1, own', root, vpn, Leaf(pa / PAGE_SIZE, perm));
      }
    }
  }

  // ---------------------------------------------------------------- main results

  /**
   `vm_map_page` refines one update of a flat map.  It succeeds exactly when the addresses are aligned,
   the page is unmapped and the pool still holds the missing nodes; it then changes the translation of
   one page number, in exactly the tables that share the slot.  A failing call changes no translation,
   even when it has already taken nodes from the pool.
   */
  lemma MapPageRefines(f: Forest, roots: set<nat>, root: nat, va: nat, pa: nat, perm: Perm)
    requires Good(f, roots) && root in roots
    ensures var (f', rc) := MapPage(f, root, va, pa, perm);
            Good(f', roots) && Mapped(f, root, va, pa, perm, roots, f', rc)
  {
    var own: map<nat, Owner> :| Inv(f, own) && Owns(own, roots);
    var own' := MapPageKeeps(f, own, root, va, pa, perm);
  }

  /** Overwriting the valid leaf of a page changes that page only, in exactly the tables that share it. */
  lemma RewriteLeaf(f: Forest, roots: set<nat>, root: nat, vpn: nat, p: Pte)
    requires Good(f, roots) && root in roots && vpn < VPN_COUNT && p.valid
    requires Lookup(f, root, vpn).Some?
    ensures var f' := SetEntry(f, LowNode(f, root, vpn).value, Index(vpn, 0), p);
            && Good(f', roots) && f'.kroot == f.kroot
            && (forall r: nat, i: nat | r in roots :: Entry(f', r, i) == Entry(f, r, i))
            && (forall r: nat, v: nat | r in roots && v < VPN_COUNT :: Lookup(f', r, v) ==
                  if v == vpn && SharesSlot(f, root, r, Index(vpn, 2)) then Some(p) else Lookup(f, r, v))
  {
    var own: map<nat, Owner> :| Inv(f, own) && Owns(own, roots);
    LeafWritten(f, own, root, vpn, p);
    assert Inv(SetEntry(f, LowNode(f, root, vpn).value, Index(vpn, 0), p), own);
  }

  ghost function RootAdded(f: Forest, own: map<nat, Owner>): (own': map<nat, Owner>)
    requires Inv(f, own) && f.next < PT_PAGES
    ensures Inv(CreateRoot(f).0, own') && Extends(own, own')
    ensures CreateRoot(f).1.Some? && CreateRoot(f).1.value in own' && own'[CreateRoot(f).1.value].Root?
  {
    var (f', c) := CreateRoot(f);
    var own' := own[c.value := Root];
    assert forall m, j | m in own' && own'[m].Root? && 0 <= j < ENTRIES ::
        RootLink(f, own, if m == c.value then f.kroot else m, j) ==> RootLink(f', own', m, j);
    assert forall m, j | m in own && own[m].Mid? && 0 <= j < ENTRIES ::
        MidLink(f, own, m, j) ==> MidLink(f', own', m, j);
    own'
  }

  /** Roots with equal slots over unchanged lower nodes translate alike. */
  lemma LookupSame(f: Forest, own: map<nat, Owner>, f': Forest, r: nat, s: nat, v: nat)
    requires Inv(f, own) && r in own && own[r].Root?
    requires Entry(f', s, Index(v, 2)) == Entry(f, r, Index(v, 2))
    requires forall n: nat, i: nat | n in own :: Entry(f', n, i) == Entry(f, n, i)
    ensures Lookup(f', s, v) == Lookup(f, r, v)
  {
    hide Index;
    Reach(f, own, r, v);
    assert RootLink(f, own, r, Index(v, 2));
  }

  /** `vm_create_agent_pt` yields a table that translates as the kernel's does and disturbs no other. */
  lemma CreateRootCopies(f: Forest, roots: set<nat>)
    requires Good(f, roots)
    ensures var (f', c) := CreateRoot(f);
            && f'.kroot == f.kroot
            && (c.Some? <==> f.next < PT_PAGES)
            && (c.None? ==> f' == f)
            && (forall r: nat, i: nat | r in roots + {f.kroot} :: Entry(f', r, i) == Entry(f, r, i))
            && (forall r: nat, v: nat | r in roots + {f.kroot} :: Lookup(f', r, v) == Lookup(f, r, v))
            && (c.Some? ==>
                  && c.value !in roots + {f.kroot} && Good(f', roots + {c.value})
                  && (forall v: nat :: Lookup(f', c.value, v) == Lookup(f, f.kroot, v))
                  && (forall i: nat :: Entry(f', c.value, i) == Entry(f, f.kroot, i)))
  {
    hide Index, LowNode;
    var own: map<nat, Owner> :| Inv(f, own) && Owns(own, roots);
    var (f', c) := CreateRoot(f);
    if c.Some? {
      var own' := RootAdded(f, own);
      assert c.value !in f.nodes;
      assert Owns(own', roots + {c.value});
      forall r: nat, v: nat | r in own && own[r].Root? ensures Lookup(f', r, v) == Lookup(f, r, v) {
        LookupSame(f, own, f', r, r, v);
      }
      forall v: nat ensures Lookup(f', c.value, v) == Lookup(f, f.kroot, v) {
        LookupSame(f, own, f', f.kroot, c.value, v);
      }
    }
  }

  /** A slot that is empty in the kernel's root is shared by no two tables. */
  lemma EmptyKernelSlotIsPrivate(f: Forest, roots: set<nat>, r: nat, s: nat, i: nat)
    requires Good(f, roots) && r in roots && s in roots && r != s && i < ENTRIES
    requires !Entry(f, f.kroot, i).valid
    ensures !SharesSlot(f, r, s, i)
  {
    var own: map<nat, Owner> :| Inv(f, own) && Owns(own, roots);
    assert RootLink(f, own, r, i) && RootLink(f, own, s, i);
  }

  /**
   Where a slot is shared, a page mapped through one table is taken in the other: mapping the same
   address there fails.
   */
  lemma SharedSlotCollides(f: Forest, roots: set<nat>, r: nat, s: nat, va: nat, pa: nat, perm: Perm, pb: nat,
                           qerm: Perm)
    requires Good(f, roots) && r in roots && s in roots && r != s
    requires SharesSlot(f, r, s, Index(VpnOf(va), 2))
    requires MapPage(f, r, va, pa, perm).1 == 0
    ensures MapPage(MapPage(f, r, va, pa, perm).0, s, va, pb, qerm).1 == -1
  {
    MapPageRefines(f, roots, r, va, pa, perm);
    MapPageRefines(MapPage(f, r, va, pa, perm).0, roots, s, va, pb, qerm);
  }

  /** 64 pool pages cannot fill 512 root slots: every table leaves some of the first 65 slots empty. */
  lemma SomeSlotEmpty(f: Forest, roots: set<nat>, root: nat) returns (i: nat)
    requires Good(f, roots) && root in roots
    ensures i <= PT_PAGES && !Entry(f, root, i).valid
  {
    var own: map<nat, Owner> :| Inv(f, own) && Owns(own, roots);
    if forall k: nat | k <= PT_PAGES :: Entry(f, root, k).valid {
      var children := seq(PT_PAGES + 1, (k: nat) => Entry(f, root, k).ppn);
      forall k, l | 0 <= k < l < |children| ensures children[k] != children[l] {
        assert RootLink(f, own, root, k) && RootLink(f, own, root, l);
      }
      forall c | c in children ensures POOL_PPN <= c < POOL_PPN + PT_PAGES {
        var k :| 0 <= k < |children| && children[k] == c;
        assert RootLink(f, own, root, k);
      }
      Pigeonhole(children, POOL_PPN, PT_PAGES);
      assert false;
    }
    i :| i <= PT_PAGES && !Entry(f, root, i).valid;
  }
}

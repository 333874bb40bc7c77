/** kernel/vm.c's page-table code as it runs: in-place updates and loops, proved against PageTable. */
module PageTableMachine {
  import opened Base
  import opened PageTable

  /** A user access of the given kind is allowed on this page. */
  predicate PageOk(f: Forest, root: nat, vpn: nat, write: bool) {
    match Lookup(f, root, vpn)
    case None => false
    case Some(p) => p.perm.u && (if write then p.perm.w else p.perm.r || p.perm.x)
  }

  /** What `vm_user_check` answers; the last page of the 64-bit space is never accepted. */
  ghost predicate RangeOk(f: Forest, root: nat, ua: nat, len: nat, write: bool) {
    len == 0 || (ua + len <= TWO_64 - PAGE_SIZE && BytesOk(f, root, ua, ua + len, write))
  }

  ghost predicate BytesOk(f: Forest, root: nat, lo: nat, hi: nat, write: bool) {
    forall b: nat | lo <= b < hi :: PageOk(f, root, VpnOf(b), write)
  }

  function PageBase(va: nat): nat {
    va - va % PAGE_SIZE
  }

  /** The index arithmetic of `vm_walk` on raw addresses: shift by 12 + 9 * level, keep nine bits. */
  function VaIndex(va: nat, level: nat): nat {
    if level == 2 then va / 0x4000_0000 % ENTRIES
    else if level == 1 then va / 0x20_0000 % ENTRIES
    else va / 0x1000 % ENTRIES
  }

  lemma VaIndexIsVpnIndex(va: nat, level: nat)
    ensures VaIndex(va, level) == Index(VpnOf(va), level)
  {
    var page := va / PAGE_SIZE;
    if level == 2 {
      assert va / 0x4000_0000 == page / 0x4_0000;
    } else if level == 1 {
      assert va / 0x20_0000 == page / 0x200;
    }
    PageDigits(page);
  }

  /** Cutting a page number to 27 bits keeps its three digits. */
  lemma PageDigits(page: nat)
    ensures page / 0x4_0000 % 0x200 == page % VPN_COUNT / 0x4_0000 % 0x200
    ensures page / 0x200 % 0x200 == page % VPN_COUNT / 0x200 % 0x200
    ensures page % 0x200 == page % VPN_COUNT % 0x200
  {
    var q, r := page / VPN_COUNT, page % VPN_COUNT;
    assert page == q * 0x800_0000 + r;
    assert page / 0x4_0000 == q * 0x200 + r / 0x4_0000;
    assert page / 0x200 == q * 0x4_0000 + r / 0x200;
  }

  lemma SamePage(b: nat, va: nat)
    requires va % PAGE_SIZE == 0 && va <= b < va + PAGE_SIZE
    ensures VpnOf(b) == VpnOf(va)
  {
  }

  /** One more page: allowed or not, it decides for the bytes of the range that lie on it. */
  lemma NextPage(f: Forest, root: nat, ua: nat, end: nat, a: nat, write: bool)
    requires a % PAGE_SIZE == 0 && PageBase(ua) <= a < end && ua < end
    requires BytesOk(f, root, ua, a, write)
    ensures PageOk(f, root, VpnOf(a), write) ==> BytesOk(f, root, ua, a + PAGE_SIZE, write)
    ensures !PageOk(f, root, VpnOf(a), write) ==> !BytesOk(f, root, ua, end, write)
  {
    forall b: nat | a <= b < a + PAGE_SIZE ensures VpnOf(b) == VpnOf(a) {
      SamePage(b, a);
    }
    var first := if a < ua then ua else a;
    assert ua <= first < end && VpnOf(first) == VpnOf(a);
    assert BytesOk(f, root, ua, end, write) ==> PageOk(f, root, VpnOf(first), write);
  }

  /** Page-aligned addresses advance in whole pages. */
  lemma PageStep(a: nat, limit: nat)
    requires a % PAGE_SIZE == 0 && limit % PAGE_SIZE == 0 && a < limit
    ensures a + PAGE_SIZE <= limit && (a + PAGE_SIZE) % PAGE_SIZE == 0
  {
  }

  class Tables {
    var nodes: map<nat, seq<Pte>>
    var next: nat
    const kroot: nat
    ghost var own: map<nat, Owner>

    function State(): Forest
      reads this
    {
      Forest(nodes, next, kroot)
    }

    ghost predicate Valid()
      reads this
    {
      Inv(State(), own)
    }

    ghost predicate IsRoot(n: nat)
      reads this
    {
      n in own && own[n].Root?
    }

    /** `vm_init` before any mapping: an all-zero root table and an untouched pool. */
    constructor (kroot: nat)
      requires !(POOL_PPN <= kroot < POOL_PPN + PT_PAGES)
      ensures Valid() && IsRoot(kroot) && this.kroot == kroot && next == 0
      ensures forall v: nat :: Lookup(State(), kroot, v) == None
    {
      this.kroot := kroot;
      next := 0;
      nodes := map[kroot := EmptyNode()];
      own := map[kroot := Root];
    }

    /** `pt_alloc` */
    method PtAlloc() returns (pt: Option<nat>)
      requires next <= PT_PAGES
      modifies this`nodes, this`next
      ensures (State(), pt) == Alloc(old(State()), EmptyNode())
    {
      if next >= PT_PAGES {
        return None;
      }
      var page := POOL_PPN + next;
      next := next + 1;
      var words: seq<Pte> := [];
      for i := 0 to ENTRIES
        invariant |words| == i && forall k | 0 <= k < i :: words[k] == EmptyPte
      {
        words := words + [EmptyPte];
      }
      assert words == EmptyNode();
      nodes := nodes[page := words];
      pt := Some(page);
    }

    /** The body of `vm_walk`'s loop: follow entry i of node n, adding a child where allowed. */
    method Follow(n: nat, i: nat, alloc: bool) returns (c: Option<nat>)
      requires Valid() && n in own && !own[n].Low? && i < ENTRIES
      modifies this
      ensures Valid() && Extends(old(own), own)
      ensures c.Some? ==> c.value in own && (if own[n].Root? then own[c.value].Mid? else own[c.value].Low?)
      ensures alloc ==> (State(), c) == Descend(old(State()), n, i)
      ensures !alloc ==> State() == old(State()) && own == old(own) && c == Child(State(), n, i)
    {
      ghost var own' := DescendKeeps(State(), own, n, i);
      if nodes[n][i].valid {
        c := Some(nodes[n][i].ppn);
      } else {
        if !alloc {
          return None;
        }
        c := PtAlloc();
        if c.None? {
          return;
        }
        nodes := nodes[n := nodes[n][i := Pointer(c.value)]];
      }
      if alloc {
        own := own';
      }
    }

    /** `vm_walk`: the node and index of the level-0 entry for `va`. */
    method Walk(root: nat, va: nat, alloc: bool) returns (pte: Option<(nat, nat)>)
      requires Valid() && IsRoot(root)
      modifies this
      ensures Valid() && Extends(old(own), own)
      ensures pte.Some? ==> pte.value.0 in own && pte.value.1 == Index(VpnOf(va), 0) && own[pte.value.0].Low?
      ensures alloc ==> (State(), LowOf(pte)) == WalkAlloc(old(State()), root, VpnOf(va))
      ensures !alloc ==> State() == old(State()) && own == old(own) && LowOf(pte) == LowNode(State(), root, VpnOf(va))
    {
      hide Inv, Index, VpnOf, VaIndex, Lookup;
      var pt := root;
      var level := 2;
      ghost var f0, vpn := State(), VpnOf(va);
      while level > 0
        invariant 0 <= level <= 2
        invariant Valid() && Extends(old(own), own) && pt in own
        invariant level == 2 ==> pt == root && own[pt].Root?
        invariant level == 1 ==> own[pt].Mid?
        invariant level == 0 ==> own[pt].Low?
        invariant !alloc ==> State() == f0 && own == old(own)
        invariant level == 2 ==> State() == f0
        invariant level == 1 && alloc ==> (State(), Some(pt)) == Descend(f0, root, Index(vpn, 2))
        invariant level == 0 && alloc ==> (State(), Some(pt)) == WalkAlloc(f0, root, vpn)
        invariant level == 1 && !alloc ==> Child(f0, root, Index(vpn, 2)) == Some(pt)
        invariant level == 0 && !alloc ==> LowNode(f0, root, vpn) == Some(pt)
      {
        VaIndexIsVpnIndex(va, level);
        var child := Follow(pt, VaIndex(va, level), alloc);
        if child.None? {
          return None;
        }
        pt := child.value;
        level := level - 1;
      }
      VaIndexIsVpnIndex(va, 0);
      pte := Some((pt, VaIndex(va, 0)));
    }

    /** `vm_map_page` */
    method MapPage(root: nat, va: nat, pa: nat, perm: Perm) returns (rc: int)
      requires Valid() && IsRoot(root)
      modifies this
      ensures Valid() && Extends(old(own), own)
      ensures (State(), rc) == PageTable.MapPage(old(State()), root, va, pa, perm)
    {
      if va % PAGE_SIZE != 0 || pa % PAGE_SIZE != 0 {
        return -1;
      }
      var pte := Walk(root, va, true);
      if pte.None? {
        return -1;
      }
      var (n, i) := pte.value;
      if nodes[n][i].valid {
        return -1;
      }
      ghost var f := State();
      assert LowNode(f, root, VpnOf(va)) == Some(n) by {
        var _ := WalkKeeps(old(State()), old(own), root, VpnOf(va));
      }
      LeafWritten(f, own, root, VpnOf(va), Leaf(pa / PAGE_SIZE, perm));
      nodes := nodes[n := nodes[n][i := Leaf(pa / PAGE_SIZE, perm)]];
      rc := 0;
    }

    /** `vm_page_mapped` */
    method PageMapped(root: nat, va: nat) returns (b: bool)
      requires Valid() && IsRoot(root)
      modifies this
      ensures State() == old(State()) && own == old(own)
      ensures b <==> Lookup(State(), root, VpnOf(va)).Some?
    {
      SamePage(va, PageBase(va));
      var pte := Walk(root, PageBase(va), false);
      b := pte.Some? && nodes[pte.value.0][pte.value.1].valid;
    }

    /** The entry that `va` resolves to, if it is valid. */
    method ReadLeaf(root: nat, va: nat) returns (p: Option<Pte>)
      requires Valid() && IsRoot(root)
      modifies this
      ensures State() == old(State()) && own == old(own)
      ensures p == Lookup(State(), root, VpnOf(va))
    {
      var pte := Walk(root, va, false);
      if pte.None? || !nodes[pte.value.0][pte.value.1].valid {
        return None;
      }
      p := Some(nodes[pte.value.0][pte.value.1]);
    }

    /** A store through the pointer that `vm_walk` returned for `va`. */
    method WriteLeaf(root: nat, va: nat, p: Pte)
      requires Valid() && IsRoot(root) && p.valid && Lookup(State(), root, VpnOf(va)).Some?
      modifies this
      ensures Valid() && own == old(own) && next == old(next)
      ensures State() ==
              SetEntry(old(State()), LowNode(old(State()), root, VpnOf(va)).value, Index(VpnOf(va), 0), p)
    {
      var pte := Walk(root, va, false);
      var (n, i) := pte.value;
      LeafWritten(State(), own, root, VpnOf(va), p);
      nodes := nodes[n := nodes[n][i := p]];
    }

    /** `vm_create_agent_pt` */
    method CreateAgentPt() returns (pt: Option<nat>)
      requires Valid()
      modifies this
      ensures Valid() && Extends(old(own), own) && (pt.Some? ==> IsRoot(pt.value))
      ensures (State(), pt) == CreateRoot(old(State()))
    {
      ghost var f0 := State();
      pt := PtAlloc();
      if pt.None? {
        return;
      }
      var page := nodes[pt.value];
      for i := 0 to ENTRIES
        invariant |page| == ENTRIES && forall k | 0 <= k < i :: page[k] == nodes[kroot][k]
      {
        page := page[i := nodes[kroot][i]];
      }
      assert page == f0.nodes[kroot];
      nodes := nodes[pt.value := page];
      assert State().nodes == CreateRoot(f0).0.nodes;
      own := RootAdded(f0, own);
    }

    /** The tests `vm_user_check` makes on one page. */
    method PageAllows(root: nat, a: nat, write: bool) returns (ok: bool)
      requires Valid() && IsRoot(root)
      modifies this
      ensures State() == old(State()) && own == old(own)
      ensures ok <==> PageOk(State(), root, VpnOf(a), write)
    {
      var pte := Walk(root, a, false);
      if pte.None? || !nodes[pte.value.0][pte.value.1].valid {
        return false;
      }
      var p := nodes[pte.value.0][pte.value.1];
      if !p.perm.u {
        return false;
      }
      if write {
        if !p.perm.w {
          return false;
        }
      } else if !p.perm.r && !p.perm.x {
        return false;
      }
      ok := true;
    }

    /**
     `vm_user_check`: 0 exactly when every byte of the range lies on a user page that allows the access.
     The address advances modulo 2^64; a range that touches the top page makes it wrap and then fail on
     a page that no table can have mapped.
     */
    method UserCheck(root: nat, ua: nat, len: nat, write: bool) returns (rc: int)
      requires Valid() && IsRoot(root)
      requires ua < TWO_64 && len < TWO_64
      modifies this
      ensures State() == old(State()) && own == old(own)
      ensures rc == 0 || rc == -1
      ensures rc == 0 <==> RangeOk(State(), root, ua, len, write)
    {
      if len == 0 {
        return 0;
      }
      var end := Wrap(ua + len);
      if end < ua {
        return -1;
      }
      ghost var f := State();
      ghost var bad := UnmappablePage(f, own, root);
      ghost var wrapped := false;
      var a: nat := PageBase(ua);
      while a < end
        invariant State() == f && own == old(own)
        invariant a % PAGE_SIZE == 0 && a < TWO_64
        invariant !wrapped ==> PageBase(ua) <= a && BytesOk(f, root, ua, a, write)
        invariant wrapped ==> end > TWO_64 - PAGE_SIZE && a <= bad
        decreases !wrapped, if wrapped then bad - a else TWO_64 - a
      {
        if !wrapped {
          NextPage(f, root, ua, end, a, write);
        }
        var ok := PageAllows(root, a, write);
        if !ok {
          return -1;
        }
        PageStep(a, if wrapped then bad else TWO_64);
        wrapped := wrapped || a + PAGE_SIZE >= TWO_64;
        a := Wrap(a + PAGE_SIZE);
      }
      return 0;
    }
  }

  function LowOf(pte: Option<(nat, nat)>): Option<nat> {
    if pte.Some? then Some(pte.value.0) else None
  }

  /** An address below 2^39 that no table of 64 pool pages can have mapped. */
  lemma UnmappablePage(f: Forest, own: map<nat, Owner>, root: nat) returns (va: nat)
    requires Inv(f, own) && root in own && own[root].Root?
    ensures va % PAGE_SIZE == 0 && va < 0x80_0000_0000 && Lookup(f, root, VpnOf(va)).None?
  {
    assert Owns(own, {root});
    var i := SomeSlotEmpty(f, {root}, root);
    va := i * 0x4000_0000;
    VaIndexIsVpnIndex(va, 2);
  }
}

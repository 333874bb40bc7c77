/** How many pool nodes a set of pages still needs in a table, and how one mapping uses them up (kernel/vm.c:27-64). */
module NodeNeed {
  import opened Base
  import opened PageTable

  /** A mapping links exactly the nodes on the way to its page, and takes exactly the missing ones from the pool. */
  ghost predicate Linked(f: Forest, root: nat, v: nat, f': Forest) {
    && f'.next == f.next + Missing(f, root, v)
    && (forall i: nat :: Entry(f', root, i).valid == (i == Index(v, 2) || Entry(f, root, i).valid))
    && (forall w: nat :: LowNode(f', root, w).Some? ==
          ((Index(w, 2) == Index(v, 2) && Index(w, 1) == Index(v, 1)) || LowNode(f, root, w).Some?))
  }

  lemma WalkLinks(f: Forest, own: map<nat, Owner>, root: nat, v: nat)
    requires Inv(f, own) && root in own && own[root].Root? && WalkAlloc(f, root, v).1.Some?
    ensures Linked(f, root, v, WalkAlloc(f, root, v).0)
  {
    hide Index, Lookup, Descend, Inv, Grown, LowNode, Missing;
    var i2, i1 := Index(v, 2), Index(v, 1);
    var own1 := DescendKeeps(f, own, root, i2);
    var (f1, mid) := Descend(f, root, i2);
    GrownHas(f, own, root, i2, f1, mid);
    var own2 := DescendKeeps(f1, own1, mid.value, i1);
    var (f2, low) := Descend(f1, mid.value, i1);
    TwoGrownCount(f, own, root, v, f1, mid.value, own1, f2, low);
    forall w: nat
      ensures LowNode(f2, root, w).Some? ==
              ((Index(w, 2) == i2 && Index(w, 1) == i1) || LowNode(f, root, w).Some?)
    {
      TwoGrown(f, own, root, v, f1, mid.value, own1, f2, low, w);
    }
  }

  lemma GrownHas(f: Forest, own: map<nat, Owner>, n: nat, i: nat, f': Forest, c: Option<nat>)
    requires Grown(f, own, n, i, f', c)
    ensures c.Some? <==> Entry(f, n, i).valid || f.next < PT_PAGES
  {
  }

  /** Pool and root slots after both levels of the walk. */
  lemma TwoGrownCount(f: Forest, own: map<nat, Owner>, root: nat, v: nat, f1: Forest, mid: nat,
                      own1: map<nat, Owner>, f2: Forest, low: Option<nat>)
    requires root in own && own[root].Root? && root in own1 && own1[root].Root? && mid in own1 && own1[mid].Mid?
    requires Grown(f, own, root, Index(v, 2), f1, Some(mid)) && Grown(f1, own1, mid, Index(v, 1), f2, low) && low.Some?
    ensures f2.next == f.next + Missing(f, root, v)
    ensures forall i: nat :: Entry(f2, root, i).valid == (i == Index(v, 2) || Entry(f, root, i).valid)
  {
    hide Index;
  }

  /** Level-0 nodes after both levels of the walk. */
  lemma TwoGrown(f: Forest, own: map<nat, Owner>, root: nat, v: nat, f1: Forest, mid: nat,
                 own1: map<nat, Owner>, f2: Forest, low: Option<nat>, w: nat)
    requires Inv(f, own) && Inv(f1, own1) && Extends(own, own1) && root in own && own[root].Root?
    requires mid in own1 && own1[mid].Mid? && low.Some?
    requires Grown(f, own, root, Index(v, 2), f1, Some(mid)) && Grown(f1, own1, mid, Index(v, 1), f2, low)
    ensures LowNode(f2, root, w).Some? ==
            ((Index(w, 2) == Index(v, 2) && Index(w, 1) == Index(v, 1)) || LowNode(f, root, w).Some?)
  {
    hide Index, Shape;
    assert RootLink(f, own, root, Index(w, 2)) && RootLink(f1, own1, root, Index(w, 2));
    assert RootLink(f1, own1, root, Index(v, 2));
  }

  /** Writing a leaf links no node. */
  lemma LeafLinksNothing(f: Forest, own: map<nat, Owner>, root: nat, low: nat, i: nat, p: Pte, w: nat)
    requires Inv(f, own) && root in own && own[root].Root? && low in own && own[low].Low?
    ensures var f' := SetEntry(f, low, i, p);
            && LowNode(f', root, w) == LowNode(f, root, w)
            && (forall j: nat :: Entry(f', root, j) == Entry(f, root, j))
  {
    hide Index, Lookup;
    assert RootLink(f, own, root, Index(w, 2));
  }

  lemma MapPageLinks(f: Forest, roots: set<nat>, root: nat, va: nat, pa: nat, perm: Perm)
    requires Good(f, roots) && root in roots && MapPage(f, root, va, pa, perm).1 == 0
    ensures Linked(f, root, VpnOf(va), MapPage(f, root, va, pa, perm).0)
  {
    hide Index, Lookup, VpnOf, WalkAlloc, Inv;
    var own: map<nat, Owner> :| Inv(f, own) && Owns(own, roots);
    var v := VpnOf(va);
    var own' := WalkKeeps(f, own, root, v);
    WalkLinks(f, own, root, v);
    var (f1, low) := WalkAlloc(f, root, v);
    forall w: nat ensures LowNode(MapPage(f, root, va, pa, perm).0, root, w) == LowNode(f1, root, w) {
      LeafLinksNothing(f1, own', root, low.value, Index(v, 0), Leaf(pa / PAGE_SIZE, perm), w);
    }
    LeafLinksNothing(f1, own', root, low.value, Index(v, 0), Leaf(pa / PAGE_SIZE, perm), v);
  }

  // ---------------------------------------------------------------- a set of pages

  /** Root slots above these pages that hold no node yet. */
  ghost function EmptySlots(f: Forest, root: nat, vs: set<nat>): set<nat> {
    set v | v in vs && !Entry(f, root, Index(v, 2)).valid :: Index(v, 2)
  }

  /** The 2 MiB region of a page: the pages below one level-0 node. */
  function Region(v: nat): nat {
    v / 512
  }

  /** The regions of these pages that have no level-0 node yet. */
  ghost function EmptyRegions(f: Forest, root: nat, vs: set<nat>): set<nat> {
    set v | v in vs && LowNode(f, root, v).None? :: Region(v)
  }

  /** One node for each empty slot and one for each empty region. */
  ghost function Need(f: Forest, root: nat, vs: set<nat>): nat {
    |EmptySlots(f, root, vs)| + |EmptyRegions(f, root, vs)|
  }

  lemma RegionIs(v: nat, w: nat)
    requires v < VPN_COUNT && w < VPN_COUNT
    ensures Region(v) == Region(w) <==> Index(v, 2) == Index(w, 2) && Index(v, 1) == Index(w, 1)
  {
    assert v / 512 == v / 0x4_0000 * 0x200 + v / 0x200 % 0x200;
    assert w / 512 == w / 0x4_0000 * 0x200 + w / 0x200 % 0x200;
  }

  /** Mapping one page of a set leaves the rest exactly that much less to take. */
  lemma NeedAfter(f: Forest, root: nat, v: nat, vs: set<nat>, f': Forest)
    requires Linked(f, root, v, f') && v !in vs && v < VPN_COUNT && forall w | w in vs :: w < VPN_COUNT
    ensures f.next + Need(f, root, {v} + vs) == f'.next + Need(f', root, vs)
  {
    hide Lookup, Entry;
    SlotsAfter(f, root, v, vs, f');
    RegionsAfter(f, root, v, vs, f');
    assert LowNode(f, root, v).Some? ==> Entry(f, root, Index(v, 2)).valid;
  }

  lemma SlotsAfter(f: Forest, root: nat, v: nat, vs: set<nat>, f': Forest)
    requires Linked(f, root, v, f')
    ensures |EmptySlots(f, root, {v} + vs)| ==
            |EmptySlots(f', root, vs)| + if Entry(f, root, Index(v, 2)).valid then 0 else 1
  {
    hide Lookup, Entry, Index, LowNode, Missing;
    var i := Index(v, 2);
    var before, after := EmptySlots(f, root, {v} + vs), EmptySlots(f', root, vs);
    assert i !in after;
    if Entry(f, root, i).valid {
      assert before == after;
    } else {
      assert i in before by { assert v in {v} + vs; }
      forall j | j in before && j != i ensures j in after {
        var w :| w in {v} + vs && !Entry(f, root, Index(w, 2)).valid && j == Index(w, 2);
        assert w in vs;
      }
      assert before == after + {i};
    }
  }

  lemma RegionsAfter(f: Forest, root: nat, v: nat, vs: set<nat>, f': Forest)
    requires Linked(f, root, v, f') && v < VPN_COUNT && forall w | w in vs :: w < VPN_COUNT
    ensures |EmptyRegions(f, root, {v} + vs)| ==
            |EmptyRegions(f', root, vs)| + if LowNode(f, root, v).Some? then 0 else 1
  {
    hide Lookup, Entry, Index, LowNode, Missing, Linked, Region;
    var before, after := EmptyRegions(f, root, {v} + vs), EmptyRegions(f', root, vs);
    forall w | w in vs
      ensures LowNode(f', root, w).None? == (Region(w) != Region(v) && LowNode(f, root, w).None?)
      ensures Region(w) == Region(v) ==> LowNode(f, root, w) == LowNode(f, root, v)
    {
      RegionLinked(f, root, v, f', w);
    }
    assert Region(v) !in after;
    if LowNode(f, root, v).Some? {
      assert before == after;
    } else {
      assert Region(v) in before by { assert v in {v} + vs; }
      forall j | j in before && j != Region(v) ensures j in after {
        var w :| w in {v} + vs && LowNode(f, root, w).None? && j == Region(w);
        assert w in vs;
      }
      assert before == after + {Region(v)};
    }
  }

  lemma RegionLinked(f: Forest, root: nat, v: nat, f': Forest, w: nat)
    requires Linked(f, root, v, f') && v < VPN_COUNT && w < VPN_COUNT
    ensures LowNode(f', root, w).None? == (Region(w) != Region(v) && LowNode(f, root, w).None?)
    ensures Region(w) == Region(v) ==> LowNode(f, root, w) == LowNode(f, root, v)
  {
    hide Entry, Index, Region, Missing;
    RegionIs(v, w);
  }

  /** The set needs at least what one of its pages lacks, and nothing if it is empty. */
  lemma NeedAtLeast(f: Forest, root: nat, v: nat, vs: set<nat>)
    requires v in vs
    ensures Missing(f, root, v) <= Need(f, root, vs)
  {
    hide Lookup, Entry, Index, Region;
    if Missing(f, root, v) == 2 {
      assert Index(v, 2) in EmptySlots(f, root, vs);
      assert LowNode(f, root, v).None?;
    }
    if Missing(f, root, v) >= 1 {
      assert Region(v) in EmptyRegions(f, root, vs);
    }
  }

  lemma EmptySetNeedsNothing(f: Forest, root: nat)
    ensures Need(f, root, {}) == 0
  {
    assert EmptySlots(f, root, {}) == {} && EmptyRegions(f, root, {}) == {};
  }
}

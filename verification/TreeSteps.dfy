/** The steps of Insert and Delete: each keeps the invariant, up to slack, and the stored map. */
module TreeSteps {
  import opened Types
  import opened Nodes
  import opened TreeInvariant
  import opened TreeContents
  import opened TreeRebalance
  import opened TreeBorrow
  import opened TreeSplit
  import opened InternalPages
  import opened TreeMerge

  // ---- general ----

  /** Pages outside the tree do not matter. */
  lemma InvFrame(c: Caps, p: Pages, g: Infos, root: PageId, slack: Slack, p2: Pages)
    requires Inv(c, p, g, root, slack)
    requires g.Keys <= p2.Keys && forall id :: id in g ==> p2[id] == p[id]
    ensures Inv(c, p2, g, root, slack)
  {
    forall id | id in g
      ensures NodeOk(p2, g, root, id) && SizeOk(c, p2, root, slack, id)
    {
      assert NodeOk(p, g, root, id) && SizeOk(c, p, root, slack, id);
      assert ParentOk(p2, g, root, id);
      if p[id].Leaf? {
        assert LeafOk(p2, g, id);
      } else {
        assert InternalOk(p2, g, id);
      }
    }
  }

  lemma StoresFrame(p: Pages, g: Infos, p2: Pages, g2: Infos, m: map<Key, RID>)
    requires g.Keys <= p.Keys && g2.Keys <= p2.Keys && Stores(p, g, m)
    requires forall id :: id in g ==> (if id in g2 then SameEntries(p[id], p2[id]) else p[id].Internal?)
    requires forall id :: id in g2 && id !in g ==> p2[id].Internal?
    ensures Stores(p2, g2, m)
  {
    StoresMoved(p, g, p2, g2, (g.Keys - g2.Keys) + (g2.Keys - g.Keys), m);
  }

  /** Slack that is not used can be dropped. */
  lemma NoSlack(c: Caps, p: Pages, g: Infos, root: PageId, slack: Slack, x: PageId)
    requires Inv(c, p, g, root, slack) && x in g && (slack == Over(x) || slack == Under(x))
    requires SizeOk(c, p, root, Exact, x)
    ensures Inv(c, p, g, root, Exact)
  {
    forall id | id in g
      ensures SizeOk(c, p, root, Exact, id)
    {
      assert SizeOk(c, p, root, slack, id);
    }
  }

  // ---- one leaf changes ----

  lemma LeafInsertStep(c: Caps, p: Pages, g: Infos, root: PageId, x: PageId, key: Key, val: RID, m: map<Key, RID>)
    requires Inv(c, p, g, root, Exact) && Stores(p, g, m)
    requires x in g && p[x].Leaf? && InRange(g[x], key) && p[x].Shaped() && !HasKey(p[x], key)
    ensures Inv(c, p[x := LeafInsert(p[x], key, val)], g, root, Over(x))
    ensures Stores(p[x := LeafInsert(p[x], key, val)], g, m[key := val]) && key !in m
  {
    var n := LeafInsert(p[x], key, val);
    assert NodeOk(p, g, root, x);
    InsertSorted(p[x], key, val);
    StoredInLeaf(p, g, root, x, key, m);
    StoresInsert(p, g, root, x, key, val, m);
    LeafUpdateShape(p, g, root, x, n);
    forall id | id in g
      ensures SizeOk(c, p[x := n], root, Over(x), id)
    {
      assert SizeOk(c, p, root, Exact, id);
    }
  }

  lemma LeafRemoveStep(c: Caps, p: Pages, g: Infos, root: PageId, x: PageId, key: Key, m: map<Key, RID>)
    requires Inv(c, p, g, root, Exact) && Stores(p, g, m)
    requires x in g && p[x].Leaf? && InRange(g[x], key) && p[x].Shaped() && HasKey(p[x], key)
    ensures Inv(c, p[x := LeafRemove(p[x], key)], g, root, Under(x))
    ensures Stores(p[x := LeafRemove(p[x], key)], g, m - {key}) && key in m
  {
    var n := LeafRemove(p[x], key);
    assert NodeOk(p, g, root, x);
    StoredInLeaf(p, g, root, x, key, m);
    StoresRemove(p, g, root, x, key, m);
    LeafUpdateShape(p, g, root, x, n);
    forall id | id in g
      ensures SizeOk(c, p[x := n], root, Under(x), id)
    {
      assert SizeOk(c, p, root, Exact, id);
    }
  }

  /** A tree of one pair. */
  lemma SingleLeaf(c: Caps, p: Pages, g: Infos, root: PageId, key: Key, val: RID)
    requires CapsOk(c) && root in p && root != INVALID_PAGE_ID && g == map[root := RootInfo(0)]
    requires p[root] == Leaf(INVALID_PAGE_ID, [key], [val], INVALID_PAGE_ID)
    ensures Inv(c, p, g, root, Exact) && Stores(p, g, map[key := val])
  {
    assert LeafOk(p, g, root);
    assert SizeOk(c, p, root, Exact, root);
    assert p[root].keys[0] == key && p[root].vals[0] == val;
    forall k, v
      ensures Holds(p, g, k, v) <==> k == key && v == val
    {
      assert Has(p[root], key, val);
    }
  }

  // ---- splitting ----

  /** An overfull page and its new half are ready to be linked. */
  lemma SplitPageStep(c: Caps, p: Pages, g: Infos, root: PageId, x: PageId, n: PageId, m: map<Key, RID>)
    requires Inv(c, p, g, root, Over(x)) && Stores(p, g, m) && x in g && n !in p && n != INVALID_PAGE_ID
    requires p[x].Shaped() && p[x].Size() == MaxSize(c, p[x]) + 1
    ensures Linkable(c, SplitPages(p, x, n), SplitInfo(g, x, SplitKey(p[x]), n), root, x, SplitKey(p[x]), n)
    ensures Stores(SplitPages(p, x, n), SplitInfo(g, x, SplitKey(p[x]), n), m)
    ensures Apart(p, g, SplitPages(p, x, n), SplitInfo(g, x, SplitKey(p[x]), n))
  {
    SplitApart(p, g, root, x, n);
    if x == root {
      SplitLinkableRoot(c, p, g, x, n);
    } else {
      SplitLinkableBelow(c, p, g, root, x, n);
    }
    SplitStores(p, g, root, x, n, m);
  }

  lemma SplitApart(p: Pages, g: Infos, root: PageId, x: PageId, n: PageId)
    requires Shape(p, g, root) && x in g && n !in p && p[x].Shaped() && p[x].Size() >= 2
    ensures Apart(p, g, SplitPages(p, x, n), SplitInfo(g, x, SplitKey(p[x]), n))
  {
    hide SplitPages;
    SplitPagesAre(p, g, root, x, n);
    assert NodeOk(p, g, root, x);
    assert forall k :: k in Moved(p[x]) ==> k in p[x].kids;
  }

  /** Linking changes no entry of a leaf. */
  lemma LinkStores(p: Pages, g: Infos, x: PageId, key: Key, n: PageId, m: map<Key, RID>)
    requires g.Keys <= p.Keys && Stores(p, g, m)
    requires x in p && n in p && p[x].parent in p && p[p[x].parent].Internal? && p[p[x].parent].Shaped()
    requires p[x].parent != n && n in g && p[x].parent in g
    ensures Stores(Link(p, x, key, n), g, m) && Apart(p, g, Link(p, x, key, n), g)
  {
    hide InsertNodeAfter;
    StoresFrame(p, g, Link(p, x, key, n), g, m);
  }

  /** A split root and a fresh page for the new root above it. */
  lemma AddRootStep(c: Caps, p: Pages, g: Infos, x: PageId, key: Key, n: PageId, r: PageId, m: map<Key, RID>)
    requires Linkable(c, p, g, x, x, key, n) && Stores(p, g, m) && r !in p && r != INVALID_PAGE_ID
    ensures Inv(c, LinkRoot(p, x, key, n, r), g[r := RootInfo(g[x].level + 1)], r, Exact)
    ensures Stores(LinkRoot(p, x, key, n, r), g[r := RootInfo(g[x].level + 1)], m)
    ensures Apart(p, g, LinkRoot(p, x, key, n, r), g[r := RootInfo(g[x].level + 1)])
  {
    StoresFrame(p, g, LinkRoot(p, x, key, n, r), g[r := RootInfo(g[x].level + 1)], m);
  }

  /** No page has more entries than its arrays have cells. */
  lemma AllFit(c: Caps, p: Pages, g: Infos, root: PageId, slack: Slack)
    requires Inv(c, p, g, root, slack)
    ensures forall id :: id in g ==> p[id].Size() <= MaxSize(c, p[id]) + 1
  {
    forall id | id in g
      ensures p[id].Size() <= MaxSize(c, p[id]) + 1
    {
      assert SizeOk(c, p, root, slack, id);
    }
  }

  /** The array classes can be used on every page: it fits, and the keys its searches read are sorted. */
  lemma PagesFitArrays(c: Caps, p: Pages, g: Infos, root: PageId, slack: Slack, id: PageId)
    requires Inv(c, p, g, root, slack) && id in g
    ensures p[id].Shaped() && p[id].Size() <= MaxSize(c, p[id]) + 1
    ensures p[id].Leaf? ==> Sorted(p[id].keys)
    ensures p[id].Internal? ==> p[id].Size() >= 1 && RoutingSorted(p[id].keys)
  {
    assert NodeOk(p, g, root, id);
    assert SizeOk(c, p, root, slack, id);
  }

  lemma SplitStores(p: Pages, g: Infos, root: PageId, x: PageId, n: PageId, m: map<Key, RID>)
    requires Shape(p, g, root) && Stores(p, g, m) && x in g && n !in g && p[x].Shaped() && p[x].Size() >= 2
    ensures g.Keys + {n} <= SplitPages(p, x, n).Keys
    ensures Stores(SplitPages(p, x, n), SplitInfo(g, x, SplitKey(p[x]), n), m)
  {
    var s, g2 := SplitPages(p, x, n), SplitInfo(g, x, SplitKey(p[x]), n);
    SplitPagesAre(p, g, root, x, n);
    forall k, v
      ensures Has(p[x], k, v) <==> Has(s[x], k, v) || Has(s[n], k, v)
    {
      if p[x].Leaf? {
        HasJoin(p[x], s[x], s[n], k, v);
      }
    }
    StoresMoved(p, g, s, g2, {x, n}, m);
  }

  // ---- borrowing and merging ----

  /** Two siblings, their parent and their children are distinct valid pages that fit their arrays. */
  lemma SiblingsReady(c: Caps, p: Pages, g: Infos, root: PageId, slack: Slack, q: PageId, j: nat, a: PageId, b: PageId)
    requires Inv(c, p, g, root, slack) && Siblings(p, g, root, q, j, a, b)
    ensures a != b && a != q && b != q && a != root && b != root
    ensures p[a].parent == q && p[b].parent == q && g[a].level == g[b].level == g[q].level - 1
    ensures p[a].Shaped() && p[b].Shaped() && p[a].Leaf? == p[b].Leaf?
    ensures slack == Under(a) || slack == Under(b) ==>
      p[a].Size() <= MaxSize(c, p[a]) && p[b].Size() <= MaxSize(c, p[b]) && p[q].Size() <= MaxSize(c, p[q])
          && p[q].Size() >= 2
    ensures slack == Under(a) || slack == Under(b) ==> p[b].Internal? ==> p[b].Size() > 0 && p[a].Size() > 0
    ensures p[a].Internal? && p[b].Internal? ==> forall i :: 0 <= i < p[a].Size() ==>
        ChildBelow(c, p, g, p[a].kids[i], q, a, b)
    ensures p[a].Internal? && p[b].Internal? ==> forall i :: 0 <= i < p[b].Size() ==>
        ChildBelow(c, p, g, p[b].kids[i], q, a, b)
  {
    SiblingFacts(p, g, root, q, j, a, b);
    AllFit(c, p, g, root, slack);
    assert NodeOk(p, g, root, q);
    assert SizeOk(c, p, root, slack, q) && SizeOk(c, p, root, slack, a) && SizeOk(c, p, root, slack, b);
  }

  ghost predicate ChildBelow(c: Caps, p: Pages, g: Infos, k: PageId, q: PageId, a: PageId, b: PageId) {
    k in g && k in p && k != INVALID_PAGE_ID && k != a && k != b && k != q && p[k].Size() <= MaxSize(c, p[k]) + 1
  }

  /** The entries of two leaves, in order, are divided anew between them. */
  lemma StoresRedivided(p: Pages, g: Infos, p2: Pages, g2: Infos, a: PageId, b: PageId, m: map<Key, RID>)
    requires g.Keys <= p.Keys && g2.Keys == g.Keys <= p2.Keys && Stores(p, g, m) && a in g && b in g
    requires p[a].Leaf? && p[b].Leaf? && p2[a].Leaf? && p2[b].Leaf?
    requires p[a].Shaped() && p[b].Shaped() && p2[a].Shaped() && p2[b].Shaped()
    requires p2[a].keys + p2[b].keys == p[a].keys + p[b].keys
    requires p2[a].vals + p2[b].vals == p[a].vals + p[b].vals
    requires forall id :: id in g && id != a && id != b ==> SameEntries(p[id], p2[id])
    ensures Stores(p2, g2, m)
  {
    var n := Leaf(0, p[a].keys + p[b].keys, p[a].vals + p[b].vals, 0);
    forall k, v
      ensures Has(p[a], k, v) || Has(p[b], k, v) <==> Has(p2[a], k, v) || Has(p2[b], k, v)
    {
      HasJoin(n, p[a], p[b], k, v);
      HasJoin(n, p2[a], p2[b], k, v);
    }
    StoresMoved(p, g, p2, g2, {a, b}, m);
  }

  /** One leaf takes over the entries of another, which leaves the tree. */
  lemma StoresJoined(p: Pages, g: Infos, p2: Pages, g2: Infos, a: PageId, b: PageId, m: map<Key, RID>)
    requires g.Keys <= p.Keys && g2.Keys == g.Keys - {b} <= p2.Keys && Stores(p, g, m) && a in g && b in g && a != b
    requires p[a].Leaf? && p[b].Leaf? && p2[a].Leaf? && p[a].Shaped() && p[b].Shaped()
    requires p2[a].keys == p[a].keys + p[b].keys && p2[a].vals == p[a].vals + p[b].vals
    requires forall id :: id in g && id != a && id != b ==> SameEntries(p[id], p2[id])
    ensures Stores(p2, g2, m)
  {
    forall k, v
      ensures Has(p[a], k, v) || Has(p[b], k, v) <==> Has(p2[a], k, v)
    {
      HasJoin(p2[a], p[a], p[b], k, v);
    }
    StoresMoved(p, g, p2, g2, {a, b}, m);
  }

  /** One entry moved from `donor` to the underfull page `x`. */
  lemma BorrowSizes(c: Caps, p: Pages, g: Infos, root: PageId, donor: PageId, x: PageId, p2: Pages)
    requires CapsOk(c) && g.Keys <= p.Keys && g.Keys <= p2.Keys && Sizes(c, p, g, root, Under(x))
    requires donor in g && x in g && donor != x && donor != root && x != root
    requires p[donor].Size() > MaxSize(c, p[donor]) / 2 && p[x].Size() < MaxSize(c, p[x]) / 2
    requires p2[donor].Size() == p[donor].Size() - 1 && p2[x].Size() == p[x].Size() + 1
    requires p2[donor].Leaf? == p[donor].Leaf? && p2[x].Leaf? == p[x].Leaf?
    requires forall id :: id in g && id != donor && id != x ==>
      p2[id].Size() == p[id].Size() && p2[id].Leaf? == p[id].Leaf?
    ensures Sizes(c, p2, g, root, Exact)
  {
    forall id | id in g
      ensures SizeOk(c, p2, root, Exact, id)
    {
      assert SizeOk(c, p, root, Under(x), id);
    }
  }

  lemma BorrowLeftStep(c: Caps, p: Pages, g: Infos, root: PageId, q: PageId, j: nat, a: PageId, b: PageId,
      m: map<Key, RID>)
    requires Inv(c, p, g, root, Under(b)) && Stores(p, g, m) && Siblings(p, g, root, q, j, a, b)
    requires p[a].Size() > MaxSize(c, p[a]) / 2 && p[b].Size() < MaxSize(c, p[b]) / 2
    ensures p[a].Leaf? == p[b].Leaf? && p[a].Shaped() && p[b].Shaped() && p[a].Size() >= 2
    ensures p[b].Internal? ==> p[b].Size() > 0 && p[a].kids[p[a].Size() - 1] in p
    ensures Inv(c, BorrowLeft(p, q, j, a, b), ShiftInfo(g, a, b, p[a].keys[p[a].Size() - 1]), root, Exact)
    ensures Stores(BorrowLeft(p, q, j, a, b), ShiftInfo(g, a, b, p[a].keys[p[a].Size() - 1]), m)
    ensures Apart(p, g, BorrowLeft(p, q, j, a, b), g)
  {
    SiblingFacts(p, g, root, q, j, a, b);
    assert SizeOk(c, p, root, Under(b), b);
    var p2, g2 := BorrowLeft(p, q, j, a, b), ShiftInfo(g, a, b, p[a].keys[p[a].Size() - 1]);
    if p[a].Leaf? {
      LeafBorrowLeft(p, g, root, q, j, a, b);
      LeafBorrowLeftStores(p, g, root, q, j, a, b, m);
    } else {
      InternalBorrowLeft(p, g, root, q, j, a, b);
      InternalBorrowLeftStores(p, g, root, q, j, a, b, m);
    }
    BorrowSizes(c, p, g, root, a, b, p2);
  }

  lemma LeafBorrowLeftStores(p: Pages, g: Infos, root: PageId, q: PageId, j: nat, a: PageId, b: PageId,
      m: map<Key, RID>)
    requires Siblings(p, g, root, q, j, a, b) && Stores(p, g, m) && p[a].Leaf? && p[b].Leaf? && p[a].Size() >= 2
    requires p[a].Shaped() && p[b].Shaped()
    ensures Stores(BorrowLeft(p, q, j, a, b), ShiftInfo(g, a, b, p[a].keys[p[a].Size() - 1]), m)
  {
    var p2 := BorrowLeft(p, q, j, a, b);
    LeafBorrowLeft(p, g, root, q, j, a, b);
    JoinLast(p[a].keys, p[b].keys);
    JoinLast(p[a].vals, p[b].vals);
    assert forall id :: id in g && id != a && id != b ==> SameEntries(p[id], p2[id]);
    StoresRedivided(p, g, p2, ShiftInfo(g, a, b, p[a].keys[p[a].Size() - 1]), a, b, m);
  }

  lemma JoinLast<T>(s: seq<T>, t: seq<T>)
    requires |s| > 0
    ensures s[..|s| - 1] + ([s[|s| - 1]] + t) == s + t
  {
  }

  lemma InternalBorrowLeftStores(p: Pages, g: Infos, root: PageId, q: PageId, j: nat, a: PageId, b: PageId,
                                 m: map<Key, RID>)
    requires Siblings(p, g, root, q, j, a, b) && Stores(p, g, m) && p[a].Internal? && p[b].Internal? && p[a].Size() >= 2
    requires p[a].Shaped() && p[b].Shaped() && p[b].Size() > 0 && p[a].kids[p[a].Size() - 1] in p
    ensures Stores(BorrowLeft(p, q, j, a, b), ShiftInfo(g, a, b, p[a].keys[p[a].Size() - 1]), m)
  {
    BorrowLeftKid(p, g, root, q, j, a, b);
    StoresFrame(p, g, BorrowLeft(p, q, j, a, b), ShiftInfo(g, a, b, p[a].keys[p[a].Size() - 1]), m);
  }

  lemma BorrowRightStep(c: Caps, p: Pages, g: Infos, root: PageId, q: PageId, j: nat, a: PageId, b: PageId,
                        m: map<Key, RID>)
    requires Inv(c, p, g, root, Under(a)) && Stores(p, g, m) && Siblings(p, g, root, q, j, a, b)
    requires p[b].Size() > MaxSize(c, p[b]) / 2 && p[a].Size() < MaxSize(c, p[a]) / 2
    ensures p[a].Leaf? == p[b].Leaf? && p[a].Shaped() && p[b].Shaped() && p[b].Size() >= 2
    ensures p[b].Internal? ==> p[b].kids[0] in p
    ensures Inv(c, BorrowRight(p, q, j, a, b), ShiftInfo(g, a, b, p[b].keys[1]), root, Exact)
    ensures Stores(BorrowRight(p, q, j, a, b), ShiftInfo(g, a, b, p[b].keys[1]), m)
    ensures Apart(p, g, BorrowRight(p, q, j, a, b), g)
  {
    SiblingFacts(p, g, root, q, j, a, b);
    assert SizeOk(c, p, root, Under(a), a);
    var p2, g2 := BorrowRight(p, q, j, a, b), ShiftInfo(g, a, b, p[b].keys[1]);
    if p[a].Leaf? {
      LeafBorrowRight(p, g, root, q, j, a, b);
      LeafBorrowRightStores(p, g, root, q, j, a, b, m);
    } else {
      InternalBorrowRight(p, g, root, q, j, a, b);
      InternalBorrowRightStores(p, g, root, q, j, a, b, m);
    }
    BorrowSizes(c, p, g, root, b, a, p2);
  }

  lemma LeafBorrowRightStores(p: Pages, g: Infos, root: PageId, q: PageId, j: nat, a: PageId, b: PageId,
      m: map<Key, RID>)
    requires Siblings(p, g, root, q, j, a, b) && Stores(p, g, m) && p[a].Leaf? && p[b].Leaf? && p[b].Size() >= 2
    requires p[a].Shaped() && p[b].Shaped()
    ensures Stores(BorrowRight(p, q, j, a, b), ShiftInfo(g, a, b, p[b].keys[1]), m)
  {
    var p2 := BorrowRight(p, q, j, a, b);
    LeafBorrowRight(p, g, root, q, j, a, b);
    JoinTail(p[a].keys, p[b].keys);
    JoinTail(p[a].vals, p[b].vals);
    assert forall id :: id in g && id != a && id != b ==> SameEntries(p[id], p2[id]);
    StoresRedivided(p, g, p2, ShiftInfo(g, a, b, p[b].keys[1]), a, b, m);
  }

  lemma JoinTail<T>(s: seq<T>, t: seq<T>)
    requires |t| > 0
    ensures s + [t[0]] + t[1..] == s + t
  {
  }

  lemma InternalBorrowRightStores(p: Pages, g: Infos, root: PageId, q: PageId, j: nat, a: PageId, b: PageId,
                                  m: map<Key, RID>)
    requires Siblings(p, g, root, q, j, a, b) && Stores(p, g, m) && p[a].Internal? && p[b].Internal? && p[b].Size() >= 2
    requires p[a].Shaped() && p[b].Shaped() && p[b].kids[0] in p
    ensures Stores(BorrowRight(p, q, j, a, b), ShiftInfo(g, a, b, p[b].keys[1]), m)
  {
    BorrowRightKid(p, g, root, q, j, a, b);
    StoresFrame(p, g, BorrowRight(p, q, j, a, b), ShiftInfo(g, a, b, p[b].keys[1]), m);
  }

  /** Neither sibling can spare an entry: the merged page is at most full, and the parent loses one child. */
  lemma MergeSizes(c: Caps, p: Pages, g: Infos, root: PageId, q: PageId, x: PageId, a: PageId, b: PageId, p2: Pages)
    requires CapsOk(c) && g.Keys <= p.Keys && g.Keys <= p2.Keys && Sizes(c, p, g, root, Under(x))
    requires a in g && b in g && q in g && a != b && a != q && b != q && a != root && b != root && (x == a || x == b)
    requires p[a].Leaf? == p[b].Leaf?
    requires p[a].Size() <= MaxSize(c, p[a]) / 2 && p[b].Size() <= MaxSize(c, p[b]) / 2
    requires p2[a].Size() == p[a].Size() + p[b].Size() && p2[a].Leaf? == p[a].Leaf?
    requires p2[q].Size() == p[q].Size() - 1 && p2[q].Leaf? == p[q].Leaf?
    requires forall id :: id in g && id != a && id != b && id != q ==>
      p2[id].Size() == p[id].Size() && p2[id].Leaf? == p[id].Leaf?
    ensures Sizes(c, p2, g - {b}, root, Under(q))
  {
    assert SizeOk(c, p, root, Under(x), a) && SizeOk(c, p, root, Under(x), b);
    forall id | id in g - {b}
      ensures SizeOk(c, p2, root, Under(q), id)
    {
      assert SizeOk(c, p, root, Under(x), id);
    }
  }

  lemma MergeStepInv(c: Caps, p: Pages, g: Infos, root: PageId, q: PageId, j: nat, x: PageId, a: PageId, b: PageId,
                     m: map<Key, RID>)
    requires Inv(c, p, g, root, Under(x)) && Stores(p, g, m) && Siblings(p, g, root, q, j, a, b) && (x == a || x == b)
    requires p[a].Size() <= MaxSize(c, p[a]) / 2 && p[b].Size() <= MaxSize(c, p[b]) / 2
    ensures p[a].Leaf? == p[b].Leaf? && p[a].Shaped() && p[b].Shaped() && (p[b].Internal? ==> p[b].Size() > 0)
    ensures Inv(c, MergePages(p, q, j, a, b), MergeInfo(g, a, b), root, Under(q))
    ensures Stores(MergePages(p, q, j, a, b), MergeInfo(g, a, b), m)
    ensures Apart(p, g, MergePages(p, q, j, a, b), g)
  {
    SiblingFacts(p, g, root, q, j, a, b);
    var p2, g2 := MergePages(p, q, j, a, b), MergeInfo(g, a, b);
    assert g2.Keys == g.Keys - {b};
    if p[a].Leaf? {
      LeafMerge(p, g, root, q, j, a, b);
      StoresJoined(p, g, p2, g2, a, b, m);
    } else {
      InternalMerge(p, g, root, q, j, a, b);
      MergePagesAre(p, g, root, q, j, a, b);
      StoresFrame(p, g, p2, g2, m);
    }
    MergeSizes(c, p, g, root, q, x, a, b, p2);
  }

  // ---- the root loses its last but one child ----

  lemma CollapseStep(c: Caps, p: Pages, g: Infos, root: PageId, m: map<Key, RID>)
    requires Inv(c, p, g, root, Under(root)) && Stores(p, g, m) && p[root].Internal? && p[root].Size() == 1
    ensures p[root].Shaped() && p[root].kids[0] in g && p[root].kids[0] != root
    ensures var r := p[root].kids[0];
      && Inv(c, p[r := p[r].(parent := INVALID_PAGE_ID)], g - {root}, r, Exact)
      && Stores(p[r := p[r].(parent := INVALID_PAGE_ID)], g - {root}, m)
  {
    assert NodeOk(p, g, root, root);
    var r := p[root].kids[0];
    var p2 := p[r := p[r].(parent := INVALID_PAGE_ID)];
    assert NodeOk(p, g, root, r);
    CollapseShape(p, g, root, p2);
    StoresFrame(p, g, p2, g - {root}, m);
    forall id | id in g - {root}
      ensures SizeOk(c, p2, r, Exact, id)
    {
      assert SizeOk(c, p, root, Under(root), id);
    }
  }

  lemma StoredIsHeld(p: Pages, g: Infos, m: map<Key, RID>)
    requires g.Keys <= p.Keys && Stores(p, g, m)
    ensures forall k :: k in m ==> Holds(p, g, k, m[k])
  {
  }

  /** An empty root leaf stores nothing. */
  lemma EmptyRoot(p: Pages, g: Infos, root: PageId, m: map<Key, RID>)
    requires Shape(p, g, root) && Stores(p, g, m) && p[root].Leaf? && p[root].Size() == 0
    ensures m == map[] && g.Keys == {root}
  {
    assert NodeOk(p, g, root, root);
    forall id | id in g
      ensures id == root
    {
      assert NodeOk(p, g, root, id);
    }
    forall k, v
      ensures !Holds(p, g, k, v)
    {
    }
    StoredIsHeld(p, g, m);
  }

  /** Every page of a tree has a key below it. */
  lemma {:induction false} NotEmptyBelow(c: Caps, p: Pages, g: Infos, root: PageId, id: PageId, m: map<Key, RID>)
    requires Inv(c, p, g, root, Exact) && Stores(p, g, m) && id in g
    ensures m != map[]
    decreases g[id].level
  {
    assert NodeOk(p, g, root, id);
    assert SizeOk(c, p, root, Exact, id);
    if p[id].Leaf? {
      assert Has(p[id], p[id].keys[0], p[id].vals[0]);
      assert Holds(p, g, p[id].keys[0], p[id].vals[0]);
    } else {
      NotEmptyBelow(c, p, g, root, p[id].kids[0], m);
    }
  }

  lemma NotEmpty(c: Caps, p: Pages, g: Infos, root: PageId, m: map<Key, RID>)
    requires Inv(c, p, g, root, Exact) && Stores(p, g, m)
    ensures m != map[]
  {
    NotEmptyBelow(c, p, g, root, root, m);
  }
}

/**
 The B+ tree index over the page store: a finite map from keys to record ids
 (services/storage/src/b_plus_tree.cpp).
 */
module BPlusTrees {
  import opened Types
  import opened Nodes
  import opened PageStores
  import opened TreeInvariant
  import opened TreeContents
  import opened TreeRebalance
  import opened TreeBorrow
  import opened TreeSplit
  import opened TreeMerge
  import opened TreeSteps

  lemma WrittenBoth(p: Pages, x: PageId, lower: Node, n: PageId, blank: Node, upper: Node)
    requires x != n
    ensures p[n := blank][x := lower][n := upper] == p[x := lower][n := upper]
  {
  }

  /** A merge of siblings: no page id appears or disappears, and one page leaves the tree. */
  lemma MergeKeeps(p: Pages, g: Infos, root: PageId, q: PageId, j: nat, a: PageId, b: PageId)
    requires Siblings(p, g, root, q, j, a, b) && (p[b].Internal? ==> p[b].Size() > 0)
    ensures p[a].Shaped() && p[b].Shaped() && p[a].Leaf? == p[b].Leaf?
    ensures MergePages(p, q, j, a, b).Keys == p.Keys
    ensures OneLeaves(g, b, g[a].level, MergeInfo(g, a, b)) && g[a].level == g[b].level
  {
    SiblingFacts(p, g, root, q, j, a, b);
  }

  /** The right sibling of a page on the path to a key is not on it. */
  lemma OffPath(p: Pages, g: Infos, root: PageId, q: PageId, j: nat, a: PageId, b: PageId, key: Key)
    requires Siblings(p, g, root, q, j, a, b) && InRange(g[a], key)
    ensures !InRange(g[b], key)
  {
    SiblingFacts(p, g, root, q, j, a, b);
  }

  /** Children of one page are all leaves or all internal pages. */
  lemma SameKind(p: Pages, g: Infos, root: PageId, q: PageId, i: nat, j: nat)
    requires Shape(p, g, root) && q in g && p[q].Internal? && i < |p[q].kids| && j < |p[q].kids|
    ensures p[q].kids[i] in g && p[q].kids[j] in g && (p[p[q].kids[i]].Leaf? <==> p[p[q].kids[j]].Leaf?)
  {
    assert NodeOk(p, g, root, q);
    assert NodeOk(p, g, root, p[q].kids[i]) && NodeOk(p, g, root, p[q].kids[j]);
    assert g[p[q].kids[i]] == ChildInfo(g[q], p[q].keys, i) && g[p[q].kids[j]] == ChildInfo(g[q], p[q].keys, j);
  }

  /** The leaf `x` is where the key belongs. */
  predicate Covers(p: Pages, g: Infos, x: PageId, key: Key)
    requires x in g
  {
    x in p && p[x].Leaf? && InRange(g[x], key)
  }

  /** The two halves of a split page, and the page ids. */
  lemma SplitHalves(p: Pages, g: Infos, root: PageId, x: PageId, n: PageId)
    requires Shape(p, g, root) && x in g && p[x].Shaped() && p[x].Size() >= 2 && n !in p
    ensures var s, key := SplitPages(p, x, n), SplitKey(p[x]);
      && s.Keys == p.Keys + {n} && SplitInfo(g, x, key, n).Keys == g.Keys + {n} && (s[x].Leaf? <==> p[x].Leaf?)
      && (s[n].Leaf? <==> p[x].Leaf?) && p[x].keys == s[x].keys + s[n].keys && s[n].Size() == p[x].Size() / 2
      && s[n].Size() > 0 && s[n].keys[0] == key
      && if p[x].Leaf? then p[x].vals == s[x].vals + s[n].vals else p[x].kids == s[x].kids + s[n].kids
  {
    SplitPagesAre(p, g, root, x, n);
  }

  /** One leaf covers a key. */
  lemma OneLeafCovers(p: Pages, g: Infos, root: PageId, x: PageId, y: PageId, key: Key)
    requires Shape(p, g, root) && x in g && y in g && p[x].Leaf? && p[y].Leaf?
    requires InRange(g[x], key) && InRange(g[y], key)
    ensures x == y
  {
    assert NodeOk(p, g, root, x) && NodeOk(p, g, root, y);
    Unique(p, g, root, x, y, key);
  }

  /** A page outside the tree may be deleted. */
  lemma DeletedFrame(c: Caps, p: Pages, g: Infos, root: PageId, slack: Slack, m: map<Key, RID>, id: PageId)
    requires Inv(c, p, g, root, slack) && Stores(p, g, m) && id !in g
    ensures Inv(c, p - {id}, g, root, slack) && Stores(p - {id}, g, m)
  {
    InvFrame(c, p, g, root, slack, p - {id});
    StoresFrame(p, g, p - {id}, g, m);
  }

  lemma WrittenRoot(p: Pages, x: PageId, key: Key, n: PageId, r: PageId, blank: Node)
    requires x in p && n in p && r !in p && x != n && blank == Internal(INVALID_PAGE_ID, [], [])
    ensures var root := Populate(blank, x, key, n);
      && root.Size() == 2
      && p[r := blank][r := root][x := p[x].(parent := r)][n := p[n].(parent := r)] == LinkRoot(p, x, key, n, r)
  {
  }

  lemma FirstPair(key: Key, value: RID)
    ensures LeafInsert(Leaf(INVALID_PAGE_ID, [], [], INVALID_PAGE_ID), key, value) ==
            Leaf(INVALID_PAGE_ID, [key], [value], INVALID_PAGE_ID)
  {
  }

  /**
   Pages that leave the tree are deleted unless they are pinned; those on the path to the key are. Only pages at
   `level` and above leave.
   */
  ghost predicate Freed(before: set<PageId>, g: Infos, pins: Pins, key: Key, level: nat, now: set<PageId>, g2: Infos) {
    && (forall id :: id in now <==> id in before && (id in g && id !in g2 ==> InRange(g[id], key) || id in pins))
    && (forall id :: id in g && id !in g2 ==> g[id].level >= level)
  }

  /** The page `b` at `level` leaves the tree; everything else there keeps its level, and above also its range. */
  ghost predicate OneLeaves(g: Infos, b: PageId, level: nat, g2: Infos) {
    && b in g && g[b].level == level && g2.Keys == g.Keys - {b}
    && forall id :: id in g2 ==> g2[id].level == g[id].level && (g[id].level != level ==> g2[id] == g[id])
  }

  /** First one page leaves, then others above it. */
  lemma FreedThen(s0: set<PageId>, g0: Infos, pins: Pins, key: Key, b: PageId, level: nat,
                  s1: set<PageId>, g1: Infos, s2: set<PageId>, g2: Infos)
    requires OneLeaves(g0, b, level, g1) && g2.Keys <= g1.Keys
    requires s1 == s0 - if InRange(g0[b], key) || b in pins then {} else {b}
    requires Freed(s1, g1, pins, key, level + 1, s2, g2)
    ensures Freed(s0, g0, pins, key, level, s2, g2)
  {
  }

  /** A further pin on a page on the path makes no difference. */
  lemma FreedPin(s: set<PageId>, g: Infos, pins: Pins, key: Key, level: nat, s2: set<PageId>, g2: Infos, q: PageId)
    requires q in g && InRange(g[q], key)
    requires Freed(s, g, Inc(pins, q), key, level, s2, g2)
    ensures Freed(s, g, pins, key, level, s2, g2)
  {
  }

  class BPlusTree {
    const bpm: PageStore<Node>
    const caps: Caps
    var rootPageId: PageId
    /** Level and key range of each page of the tree. */
    ghost var info: Infos
    /** The map the tree stands for. */
    ghost var contents: map<Key, RID>

    ghost predicate Valid()
      reads this, bpm
    {
      && bpm.Valid() && bpm.blank == BLANK
      && CapsOk(caps)
      && if rootPageId == INVALID_PAGE_ID then info == map[] && contents == map[]
         else InOrder()
    }

    /** A nonempty tree in full order. */
    ghost predicate InOrder()
      reads this, bpm
    {
      && rootPageId != INVALID_PAGE_ID
      && Inv(caps, bpm.pages, info, rootPageId, Exact) && Stores(bpm.pages, info, contents)
    }

    /** Number of levels. */
    ghost function Height(): nat
      reads this
    {
      if rootPageId in info then info[rootPageId].level + 1 else 0
    }

    /** Number of levels above the page `x`. */
    ghost function Depth(x: PageId): nat
      requires rootPageId in info && x in info
      reads this
    {
      if info[x].level <= info[rootPageId].level then info[rootPageId].level - info[x].level else 0
    }

    /** The page ids that were taken are those of the pages that joined the tree. */
    twostate predicate Grew()
      reads this, bpm
    {
      old(info).Keys <= info.Keys && bpm.pages.Keys == old(bpm.pages).Keys + info.Keys
    }

    /** `n` more frames can be pinned at the same time. */
    ghost predicate Frames(n: nat)
      reads bpm
    {
      |bpm.pins| + n <= bpm.capacity
    }

    /** Every page fits its arrays, which have one cell more than the maximum size. */
    predicate Fits(n: Node) {
      n.Size() <= MaxSize(caps, n) + 1
    }

    constructor (bpm: PageStore<Node>, caps: Caps)
      requires bpm.Valid() && bpm.blank == BLANK && CapsOk(caps)
      ensures Valid() && rootPageId == INVALID_PAGE_ID && contents == map[]
      ensures this.bpm == bpm && this.caps == caps
    {
      this.bpm, this.caps, rootPageId := bpm, caps, INVALID_PAGE_ID;
      info, contents := map[], map[];
    }

    predicate IsEmpty()
      reads this
    {
      rootPageId == INVALID_PAGE_ID
    }

    /** A change to a page in its frame: only while pinned, and within the arrays. */
    method Write(id: PageId, n: Node)
      requires bpm.Valid() && id in bpm.pins && Fits(n)
      modifies bpm`pages, bpm`unsaved
      ensures bpm.Valid()
      ensures bpm.pages == old(bpm.pages)[id := n]
      ensures bpm.unsaved <= old(bpm.unsaved) + {id}
      ensures n == old(bpm.pages)[id] ==> bpm.unsaved == old(bpm.unsaved)
    {
      bpm.Put(id, n);
    }

    /** A page is allocated and initialized, and stays pinned. */
    method NewNode(n: Node) returns (id: PageId)
      requires bpm.Valid() && Fits(n) && Frames(1) && bpm.Room(1)
      modifies bpm
      ensures bpm.Valid() && bpm.numPages <= old(bpm.numPages) + 1
      ensures id !in old(bpm.pages) && id != INVALID_PAGE_ID && bpm.pages == old(bpm.pages)[id := n]
      ensures bpm.pins == Inc(old(bpm.pins), id) && bpm.unsaved <= old(bpm.unsaved) + {id}
    {
      var ok;
      ok, id := bpm.New();
      Write(id, n);
    }

    // ---- lookup ----

    method FindLeafPage(key: Key) returns (ok: bool, id: PageId)
      requires Valid() && Frames(1)
      modifies bpm`pins, bpm`unsaved
      ensures Valid() && bpm.unsaved == old(bpm.unsaved)
      ensures ok <==> rootPageId != INVALID_PAGE_ID
      ensures !ok ==> bpm.pins == old(bpm.pins)
      ensures ok ==> bpm.pins == Inc(old(bpm.pins), id)
      ensures ok ==> id in info && bpm.pages[id].Leaf? && InRange(info[id], key)
    {
      if rootPageId == INVALID_PAGE_ID {
        return false, INVALID_PAGE_ID;
      }
      id := rootPageId;
      assert NodeOk(bpm.pages, info, rootPageId, rootPageId);
      var fetched := bpm.Fetch(id);
      while !bpm.At(id).Leaf?
        invariant bpm.Valid() && bpm.unsaved == old(bpm.unsaved)
        invariant bpm.pins == Inc(old(bpm.pins), id)
        invariant id in info && InRange(info[id], key)
        decreases info[id].level
      {
        assert NodeOk(bpm.pages, info, rootPageId, id);
        var node := bpm.At(id);
        var next := node.kids[Route(node.keys, key)];
        DecInc(old(bpm.pins), id);
        var released := bpm.Unpin(id, false);
        id := next;
        fetched := bpm.Fetch(id);
      }
      ok := true;
    }

    method GetValue(key: Key) returns (ok: bool, result: RID)
      requires Valid() && Frames(1)
      modifies bpm`pins, bpm`unsaved
      ensures Valid()
      ensures bpm.pins == old(bpm.pins) && bpm.unsaved == old(bpm.unsaved)
      ensures ok <==> key in contents
      ensures ok ==> result == contents[key]
    {
      result := RID(INVALID_PAGE_ID, 0);
      if IsEmpty() {
        return false, result;
      }
      var found, id := FindLeafPage(key);
      StoredInLeaf(bpm.pages, info, rootPageId, id, key, contents);
      var leaf := bpm.At(id);
      ok := HasKey(leaf, key);
      if ok {
        result := leaf.vals[Rank(leaf.keys, key)];
      }
      DecInc(old(bpm.pins), id);
      var released := bpm.Unpin(id, false);
    }

    // ---- insertion ----

    /** Rewrites the parent field of each listed page. */
    method SetParents(kids: seq<PageId>, to: PageId)
      requires bpm.Valid() && Frames(1)
      requires forall i :: 0 <= i < |kids| ==>
        kids[i] in bpm.pages && kids[i] != INVALID_PAGE_ID && Fits(bpm.pages[kids[i]])
      modifies bpm`pages, bpm`pins, bpm`unsaved
      ensures bpm.Valid() && bpm.pins == old(bpm.pins) && bpm.unsaved <= old(bpm.unsaved)
      ensures bpm.pages == Reparent(old(bpm.pages), kids, to)
    {
      var i := 0;
      while i < |kids|
        invariant 0 <= i <= |kids|
        invariant bpm.Valid() && bpm.pins == old(bpm.pins) && bpm.unsaved <= old(bpm.unsaved)
        invariant bpm.pages == Reparent(old(bpm.pages), kids[..i], to)
      {
        var k := kids[i];
        ReparentNext(old(bpm.pages), kids, i, to);
        var fetched := bpm.Fetch(k);
        Write(k, bpm.At(k).(parent := to));
        DecInc(old(bpm.pins), k);
        var released := bpm.Unpin(k, true);
        i := i + 1;
      }
      assert kids[..i] == kids;
    }

    /** The page `x` has been split at `key`; its new half `n` is entered in the levels above. */
    method InsertIntoParent(x: PageId, key: Key, n: PageId)
      requires bpm.Valid() && bpm.blank == BLANK && rootPageId != INVALID_PAGE_ID && INVALID_PAGE_ID !in info
      requires Linkable(caps, bpm.pages, info, rootPageId, x, key, n) && Stores(bpm.pages, info, contents)
      requires x in bpm.pins && n in bpm.pins && Fits(bpm.pages[x]) && Fits(bpm.pages[n])
      requires Frames(2 * Depth(x) + 1)
      requires bpm.Room(Depth(x) + 1)
      modifies this`info, this`rootPageId, bpm
      ensures bpm.Valid() && InOrder()
      ensures bpm.pins == old(bpm.pins)
      ensures bpm.unsaved <= old(bpm.unsaved) + {x, n}
      ensures Apart(old(bpm.pages), old(info), bpm.pages, info)
      ensures bpm.numPages <= old(bpm.numPages) + old(Depth(x)) + 1 && Grew()
      ensures Height() <= old(Height()) + 1
      ensures bpm.pages.Keys == old(bpm.pages).Keys <==>
        x != old(rootPageId) && old(bpm.pages)[old(bpm.pages)[x].parent].Size() < caps.internalMax
      decreases Depth(x), 0
    {
      if bpm.At(x).parent == INVALID_PAGE_ID {
        AddRoot(x, key, n);
        return;
      }
      var q := bpm.At(x).parent;
      ghost var p0 := bpm.pages;
      LinkStores(p0, info, x, key, n, contents);
      assert SizeOk(caps, Link(p0, x, key, n), rootPageId, Over(q), q);
      WriteLink(q, x, key, n);
      IncSize(old(bpm.pins), q);
      DecInc(old(bpm.pins), q);
      SplitParentIfFull(q);
      var released := bpm.Unpin(q, true);
    }

    /** The pinned parent `q` received a child; it is split if it has one too many. */
    method SplitParentIfFull(q: PageId)
      requires bpm.Valid() && bpm.blank == BLANK && rootPageId != INVALID_PAGE_ID
      requires Inv(caps, bpm.pages, info, rootPageId, Over(q)) && Stores(bpm.pages, info, contents)
      requires q in info && q in bpm.pins && bpm.pages[q].Internal?
      requires Frames(2 * Depth(q) + 2)
      requires bpm.Room(Depth(q) + 2)
      modifies this`info, this`rootPageId, bpm
      ensures bpm.Valid() && InOrder()
      ensures bpm.pins == old(bpm.pins)
      ensures bpm.unsaved <= old(bpm.unsaved) + {q}
      ensures Apart(old(bpm.pages), old(info), bpm.pages, info)
      ensures bpm.numPages <= old(bpm.numPages) + old(Depth(q)) + 2 && Grew()
      ensures Height() <= old(Height()) + 1
      ensures bpm.pages.Keys == old(bpm.pages).Keys <==> old(bpm.pages)[q].Size() <= caps.internalMax
      decreases Depth(q), 2
    {
      assert SizeOk(caps, bpm.pages, rootPageId, Over(q), q);
      if bpm.At(q).Size() <= MaxSize(caps, bpm.At(q)) {
        NoSlack(caps, bpm.pages, info, rootPageId, Over(q), q);
        return;
      }
      SplitParent(q);
    }

    /** The pinned parent `q` has one child too many. */
    method SplitParent(q: PageId)
      requires bpm.Valid() && bpm.blank == BLANK && rootPageId != INVALID_PAGE_ID
      requires Inv(caps, bpm.pages, info, rootPageId, Over(q)) && Stores(bpm.pages, info, contents)
      requires q in info && q in bpm.pins && bpm.pages[q].Internal? && bpm.pages[q].Size() > MaxSize(caps, bpm.pages[q])
      requires Frames(2 * Depth(q) + 2)
      requires bpm.Room(Depth(q) + 2)
      modifies this`info, this`rootPageId, bpm
      ensures bpm.Valid() && InOrder()
      ensures bpm.pins == old(bpm.pins)
      ensures bpm.unsaved <= old(bpm.unsaved) + {q}
      ensures Apart(old(bpm.pages), old(info), bpm.pages, info)
      ensures bpm.numPages <= old(bpm.numPages) + old(Depth(q)) + 2 && Grew()
      ensures Height() <= old(Height()) + 1
      ensures bpm.pages.Keys != old(bpm.pages).Keys
      decreases Depth(q), 1
    {
      hide Stores, Linkable, LeafOk, Routing;
      var np := SplitInternal(q);
      IncSize(old(bpm.pins), np);
      DecInc(old(bpm.pins), np);
      InsertIntoParent(q, bpm.At(np).keys[0], np);
      var released := bpm.Unpin(np, true);
    }

    /** Fetches the parent `q`, which stays pinned, and enters `n` after `x` in it. */
    method WriteLink(q: PageId, x: PageId, key: Key, n: PageId)
      requires bpm.Valid() && x in bpm.pins && n in bpm.pins && Frames(1) && Fits(bpm.pages[n])
      requires q == bpm.pages[x].parent && q != n && q in bpm.pages && q != INVALID_PAGE_ID
      requires bpm.pages[q].Internal? && bpm.pages[q].Shaped()
      requires bpm.pages[q].Size() <= MaxSize(caps, bpm.pages[q])
      modifies bpm`pages, bpm`pins, bpm`unsaved
      ensures bpm.Valid() && bpm.pages == Link(old(bpm.pages), x, key, n) && bpm.pages.Keys == old(bpm.pages).Keys
      ensures q in bpm.pages && bpm.pages[q].Size() == old(bpm.pages)[q].Size() + 1
      ensures bpm.pins == Inc(old(bpm.pins), q) && bpm.unsaved <= old(bpm.unsaved) + {q, n}
    {
      var fetched := bpm.Fetch(q);
      Write(q, InsertNodeAfter(bpm.At(q), x, key, n));
      Write(n, bpm.At(n).(parent := q));
    }

    /** The root has been split: a new root gets the two halves as its children. */
    method AddRoot(x: PageId, key: Key, n: PageId)
      requires bpm.Valid() && x == rootPageId
      requires Linkable(caps, bpm.pages, info, rootPageId, x, key, n) && Stores(bpm.pages, info, contents)
      requires x in bpm.pins && n in bpm.pins && Fits(bpm.pages[x]) && Fits(bpm.pages[n])
      requires Frames(1) && bpm.Room(1)
      modifies this`info, this`rootPageId, bpm
      ensures bpm.Valid() && InOrder()
      ensures bpm.pins == old(bpm.pins)
      ensures bpm.unsaved <= old(bpm.unsaved) + {x, n}
      ensures Apart(old(bpm.pages), old(info), bpm.pages, info)
      ensures bpm.numPages <= old(bpm.numPages) + 1 && Grew()
      ensures Height() == old(Height()) + 1 && bpm.pages.Keys != old(bpm.pages).Keys
    {
      ghost var p0 := bpm.pages;
      rootPageId := WriteRoot(x, key, n);
      AddRootStep(caps, p0, info, x, key, n, rootPageId, contents);
      info := info[rootPageId := RootInfo(info[x].level + 1)];
    }

    /** The two halves get a parent. */
    method Adopt(x: PageId, n: PageId, r: PageId)
      requires bpm.Valid() && x in bpm.pins && n in bpm.pins && x != n && Fits(bpm.pages[x]) && Fits(bpm.pages[n])
      modifies bpm`pages, bpm`unsaved
      ensures bpm.Valid() && bpm.unsaved <= old(bpm.unsaved) + {x, n}
      ensures var p := old(bpm.pages);
        bpm.pages == p[x := p[x].(parent := r)][n := p[n].(parent := r)]
    {
      Write(x, bpm.At(x).(parent := r));
      Write(n, bpm.At(n).(parent := r));
    }

    method WriteRoot(x: PageId, key: Key, n: PageId) returns (r: PageId)
      requires bpm.Valid() && x != n && CapsOk(caps)
      requires x in bpm.pins && n in bpm.pins && Fits(bpm.pages[x]) && Fits(bpm.pages[n])
      requires Frames(1) && bpm.Room(1)
      modifies bpm
      ensures bpm.Valid() && bpm.pins == old(bpm.pins) && bpm.unsaved <= old(bpm.unsaved) + {x, n}
      ensures bpm.numPages <= old(bpm.numPages) + 1
      ensures r !in old(bpm.pages) && r != INVALID_PAGE_ID && bpm.pages == LinkRoot(old(bpm.pages), x, key, n, r)
    {
      hide LinkRoot;
      r := NewNode(Internal(INVALID_PAGE_ID, [], []));
      WrittenRoot(old(bpm.pages), x, key, n, r, bpm.At(r));
      Write(r, Populate(bpm.At(r), x, key, n));
      Adopt(x, n, r);
      assert bpm.unsaved <= old(bpm.unsaved) + {r, x, n};
      DecInc(old(bpm.pins), r);
      var released := bpm.Unpin(r, true);
    }

    /** An internal page with one entry too many gives its upper half to a new page, which stays pinned. */
    method SplitInternal(q: PageId) returns (np: PageId)
      requires bpm.Valid() && rootPageId != INVALID_PAGE_ID
      requires Inv(caps, bpm.pages, info, rootPageId, Over(q)) && Stores(bpm.pages, info, contents)
      requires q in info && q in bpm.pins && bpm.pages[q].Internal? && bpm.pages[q].Size() > MaxSize(caps, bpm.pages[q])
      requires Frames(2) && bpm.Room(1)
      modifies this`info, bpm
      ensures bpm.Valid()
      ensures np in bpm.pages && bpm.pages[np].Internal? && bpm.pages[np].Size() > 0
      ensures Linkable(caps, bpm.pages, info, rootPageId, q, bpm.pages[np].keys[0], np)
      ensures Stores(bpm.pages, info, contents)
      ensures Fits(bpm.pages[q]) && Fits(bpm.pages[np]) && INVALID_PAGE_ID !in info
      ensures info[rootPageId].level == old(info)[rootPageId].level && info[q].level == old(info)[q].level
      ensures bpm.pins == Inc(old(bpm.pins), np)
      ensures bpm.unsaved <= old(bpm.unsaved) + {q, np} && bpm.numPages <= old(bpm.numPages) + 1
      ensures Apart(old(bpm.pages), old(info), bpm.pages, info) && np !in old(bpm.pages) && Grew()
      ensures old(bpm.pages)[q].Internal? && bpm.pages[q].Internal?
      ensures old(bpm.pages)[q].keys == bpm.pages[q].keys + bpm.pages[np].keys
      ensures old(bpm.pages)[q].kids == bpm.pages[q].kids + bpm.pages[np].kids
      ensures bpm.pages[np].Size() == old(bpm.pages)[q].Size() / 2
    {
      hide SplitPages, Linkable, Stores, SplitKey;
      ghost var p0 := bpm.pages;
      assert NodeOk(p0, info, rootPageId, q);
      assert SizeOk(caps, p0, rootPageId, Over(q), q);
      AllFit(caps, p0, info, rootPageId, Over(q));
      np := WriteSplitInternal(q);
      SplitHalves(p0, info, rootPageId, q, np);
      SplitPageStep(caps, p0, info, rootPageId, q, np, contents);
      info := SplitInfo(info, q, SplitKey(p0[q]), np);
    }

    method WriteSplitInternal(q: PageId) returns (np: PageId)
      requires bpm.Valid() && q in bpm.pins && Frames(2) && bpm.Room(1)
      requires bpm.pages[q].Internal? && bpm.pages[q].Shaped() && Fits(bpm.pages[q])
      requires forall i :: 0 <= i < bpm.pages[q].Size() ==>
        var k := bpm.pages[q].kids[i]; k in bpm.pages && k != INVALID_PAGE_ID && k != q && Fits(bpm.pages[k])
      modifies bpm
      ensures bpm.Valid() && bpm.numPages <= old(bpm.numPages) + 1
      ensures np !in old(bpm.pages) && np != INVALID_PAGE_ID
      ensures bpm.pages == SplitPages(old(bpm.pages), q, np) && bpm.pins == Inc(old(bpm.pins), np)
      ensures bpm.unsaved <= old(bpm.unsaved) + {q, np}
    {
      var blank := Internal(bpm.At(q).parent, [], []);
      np := NewNode(blank);
      var (lower, upper) := InternalMoveHalf(bpm.At(q), blank);
      Write(q, lower);
      Write(np, upper);
      WrittenBoth(old(bpm.pages), q, lower, np, blank, upper);
      IncSize(old(bpm.pins), np);
      SetParents(upper.kids, np);
    }

    /** Adds the pair unless the key is present. */
    method Insert(key: Key, value: RID) returns (ok: bool)
      requires Valid() && Frames(2 * Height() + 1) && bpm.Room(Height() + 1)
      modifies this, bpm
      ensures Valid()
      ensures ok <==> key !in old(contents)
      ensures contents == if ok then old(contents)[key := value] else old(contents)
      ensures bpm.pins == old(bpm.pins) && bpm.unsaved <= old(bpm.unsaved)
      ensures Apart(old(bpm.pages), old(info), bpm.pages, info) && Grew()
      ensures !ok ==> bpm.pages == old(bpm.pages) && info == old(info)
      ensures forall x :: x in old(info) && Covers(old(bpm.pages), old(info), x, key) ==>
        (bpm.pages.Keys == old(bpm.pages).Keys <==> !ok || old(bpm.pages)[x].Size() < caps.leafMax)
      ensures bpm.numPages <= old(bpm.numPages) + old(Height()) + 1
      ensures Height() <= old(Height()) + 1
    {
      if IsEmpty() {
        StartTree(key, value);
        return true;
      }
      ok := InsertInTree(key, value);
    }

    method InsertInTree(key: Key, value: RID) returns (ok: bool)
      requires Valid() && !IsEmpty() && Frames(2 * Height() + 1) && bpm.Room(Height() + 1)
      modifies this, bpm
      ensures Valid()
      ensures ok <==> key !in old(contents)
      ensures contents == if ok then old(contents)[key := value] else old(contents)
      ensures bpm.pins == old(bpm.pins) && bpm.unsaved <= old(bpm.unsaved)
      ensures Apart(old(bpm.pages), old(info), bpm.pages, info) && Grew()
      ensures !ok ==> bpm.pages == old(bpm.pages) && info == old(info)
      ensures forall x :: x in old(info) && Covers(old(bpm.pages), old(info), x, key) ==>
        (bpm.pages.Keys == old(bpm.pages).Keys <==> !ok || old(bpm.pages)[x].Size() < caps.leafMax)
      ensures bpm.numPages <= old(bpm.numPages) + old(Height()) + 1
      ensures Height() <= old(Height()) + 1
    {
      var found, x := FindLeafPage(key);
      forall y | y in info && bpm.pages[y].Leaf? && InRange(info[y], key)
        ensures y == x
      {
        OneLeafCovers(bpm.pages, info, rootPageId, x, y, key);
      }
      var oldSize := bpm.At(x).Size();
      IncSize(old(bpm.pins), x);
      DecInc(old(bpm.pins), x);
      var newSize := EnterInLeaf(x, key, value);
      if newSize == oldSize {
        var released := bpm.Unpin(x, false);
        return false;
      }
      SplitIfFull(x);
      var released := bpm.Unpin(x, true);
      ok := true;
    }

    /** The pair goes into its leaf, unless the key is listed there; returns the size, which may be one too many. */
    method EnterInLeaf(x: PageId, key: Key, value: RID) returns (newSize: nat)
      requires Valid() && x in info && x in bpm.pins && bpm.pages[x].Leaf? && InRange(info[x], key)
      modifies this`contents, bpm`pages, bpm`unsaved
      ensures bpm.Valid() && bpm.unsaved <= old(bpm.unsaved) + {x} && bpm.pages.Keys == old(bpm.pages).Keys
      ensures key in old(contents) ==>
        && newSize == old(bpm.pages)[x].Size() && contents == old(contents)
        && bpm.pages == old(bpm.pages) && bpm.unsaved == old(bpm.unsaved)
      ensures key !in old(contents) ==>
        && newSize == bpm.pages[x].Size() == old(bpm.pages)[x].Size() + 1 && bpm.pages[x].Leaf?
        && contents == old(contents)[key := value] && Stores(bpm.pages, info, contents)
        && Inv(caps, bpm.pages, info, rootPageId, Over(x)) && Apart(old(bpm.pages), info, bpm.pages, info)
    {
      hide InternalOk, ParentOk, Routing, LeafInsert, HasKey, Rank, Sorted;
      ghost var p0 := bpm.pages;
      assert NodeOk(p0, info, rootPageId, x);
      StoredInLeaf(p0, info, rootPageId, x, key, contents);
      PagesFitArrays(caps, p0, info, rootPageId, Exact, x);
      LeafInsertIs(p0[x], key, value);
      var leaf := LeafInsert(bpm.At(x), key, value);
      if key !in contents {
        LeafInsertStep(caps, p0, info, rootPageId, x, key, value, contents);
        AllFit(caps, p0[x := leaf], info, rootPageId, Over(x));
        contents := contents[key := value];
      }
      Write(x, leaf);
      newSize := leaf.Size();
    }

    /** The first pair: a root leaf. */
    method StartTree(key: Key, value: RID)
      requires Valid() && IsEmpty() && Frames(1) && bpm.Room(1)
      modifies this, bpm
      ensures Valid() && contents == map[key := value]
      ensures bpm.pins == old(bpm.pins) && bpm.unsaved <= old(bpm.unsaved)
      ensures Apart(old(bpm.pages), old(info), bpm.pages, info) && Grew()
      ensures bpm.numPages <= old(bpm.numPages) + 1 && Height() == 1
    {
      var id := WriteFirstLeaf(key, value);
      rootPageId := id;
      info := map[id := RootInfo(0)];
      contents := map[key := value];
      SingleLeaf(caps, bpm.pages, info, id, key, value);
    }

    method WriteFirstLeaf(key: Key, value: RID) returns (id: PageId)
      requires bpm.Valid() && CapsOk(caps) && Frames(1) && bpm.Room(1)
      modifies bpm
      ensures bpm.Valid() && bpm.pins == old(bpm.pins) && bpm.unsaved <= old(bpm.unsaved)
      ensures bpm.numPages <= old(bpm.numPages) + 1
      ensures id !in old(bpm.pages) && id != INVALID_PAGE_ID
      ensures bpm.pages == old(bpm.pages)[id := Leaf(INVALID_PAGE_ID, [key], [value], INVALID_PAGE_ID)]
    {
      hide LeafInsert;
      id := NewNode(Leaf(INVALID_PAGE_ID, [], [], INVALID_PAGE_ID));
      FirstPair(key, value);
      Write(id, LeafInsert(bpm.At(id), key, value));
      assert bpm.unsaved <= old(bpm.unsaved) + {id};
      DecInc(old(bpm.pins), id);
      var released := bpm.Unpin(id, true);
    }

    /** A leaf that received an entry is split if it has one too many; it stays pinned. */
    method SplitIfFull(x: PageId)
      requires bpm.Valid() && bpm.blank == BLANK && rootPageId in info
      requires Inv(caps, bpm.pages, info, rootPageId, Over(x)) && Stores(bpm.pages, info, contents)
      requires x in info && x in bpm.pins && bpm.pages[x].Leaf?
      requires Frames(2 * info[rootPageId].level + 2) && bpm.Room(info[rootPageId].level + 2)
      modifies this`info, this`rootPageId, bpm
      ensures Valid()
      ensures bpm.pins == old(bpm.pins) && bpm.unsaved <= old(bpm.unsaved) + {x}
      ensures Apart(old(bpm.pages), old(info), bpm.pages, info) && Grew()
      ensures bpm.pages.Keys == old(bpm.pages).Keys <==> old(bpm.pages)[x].Size() <= caps.leafMax
      ensures bpm.numPages <= old(bpm.numPages) + old(Height()) + 1
      ensures Height() <= old(Height()) + 1
    {
      ghost var p0 := bpm.pages;
      assert NodeOk(p0, info, rootPageId, x);
      assert SizeOk(caps, p0, rootPageId, Over(x), x);
      if bpm.At(x).Size() <= MaxSize(caps, bpm.At(x)) {
        NoSlack(caps, p0, info, rootPageId, Over(x), x);
        return;
      }
      SplitAndEnter(x);
    }

    /** A leaf with one entry too many is split, and its new half entered in the levels above. */
    method SplitAndEnter(x: PageId)
      requires bpm.Valid() && bpm.blank == BLANK && rootPageId in info && rootPageId != INVALID_PAGE_ID
      requires Inv(caps, bpm.pages, info, rootPageId, Over(x)) && Stores(bpm.pages, info, contents)
      requires x in info && x in bpm.pins && bpm.pages[x].Leaf? && bpm.pages[x].Size() > MaxSize(caps, bpm.pages[x])
      requires info[x].level == 0 && INVALID_PAGE_ID !in info
      requires Frames(2 * info[rootPageId].level + 2) && bpm.Room(info[rootPageId].level + 2)
      modifies this`info, this`rootPageId, bpm
      ensures bpm.Valid() && InOrder()
      ensures bpm.pins == old(bpm.pins) && bpm.unsaved <= old(bpm.unsaved) + {x}
      ensures Apart(old(bpm.pages), old(info), bpm.pages, info) && Grew()
      ensures bpm.pages.Keys != old(bpm.pages).Keys
      ensures bpm.numPages <= old(bpm.numPages) + old(Height()) + 1
      ensures Height() <= old(Height()) + 1
    {
      hide Inv, Stores, Linkable;
      var n := SplitLeaf(x);
      IncSize(old(bpm.pins), n);
      InsertIntoParent(x, bpm.At(n).keys[0], n);
      DecInc(old(bpm.pins), n);
      var released := bpm.Unpin(n, true);
    }

    /** A leaf with one entry too many gives its upper half to a new page, which stays pinned. */
    method SplitLeaf(x: PageId) returns (n: PageId)
      requires bpm.Valid() && rootPageId != INVALID_PAGE_ID
      requires Inv(caps, bpm.pages, info, rootPageId, Over(x)) && Stores(bpm.pages, info, contents)
      requires x in info && x in bpm.pins && bpm.pages[x].Leaf? && bpm.pages[x].Size() > MaxSize(caps, bpm.pages[x])
      requires Frames(1) && bpm.Room(1)
      modifies this`info, bpm
      ensures bpm.Valid()
      ensures n in bpm.pages && bpm.pages[n].Size() > 0
      ensures Linkable(caps, bpm.pages, info, rootPageId, x, bpm.pages[n].keys[0], n)
      ensures Stores(bpm.pages, info, contents)
      ensures Fits(bpm.pages[x]) && Fits(bpm.pages[n]) && INVALID_PAGE_ID !in info
      ensures info[rootPageId].level == old(info)[rootPageId].level && info[x].level == 0
      ensures bpm.pins == Inc(old(bpm.pins), n)
      ensures bpm.unsaved <= old(bpm.unsaved) + {x, n} && bpm.numPages <= old(bpm.numPages) + 1
      ensures Apart(old(bpm.pages), old(info), bpm.pages, info) && n !in old(bpm.pages) && Grew()
      ensures old(bpm.pages)[x].Leaf? && bpm.pages[x].Leaf? && bpm.pages[n].Leaf?
      ensures old(bpm.pages)[x].keys == bpm.pages[x].keys + bpm.pages[n].keys
      ensures old(bpm.pages)[x].vals == bpm.pages[x].vals + bpm.pages[n].vals
      ensures bpm.pages[n].Size() == old(bpm.pages)[x].Size() / 2
    {
      hide SplitPages, Linkable, Stores, SplitKey;
      ghost var p0 := bpm.pages;
      assert NodeOk(p0, info, rootPageId, x);
      assert SizeOk(caps, p0, rootPageId, Over(x), x);
      n := WriteSplitLeaf(x);
      SplitHalves(p0, info, rootPageId, x, n);
      SplitPageStep(caps, p0, info, rootPageId, x, n, contents);
      info := SplitInfo(info, x, SplitKey(p0[x]), n);
    }

    /** The upper half of the leaf goes to a new page, which comes next in the chain and stays pinned. */
    method WriteSplitLeaf(x: PageId) returns (n: PageId)
      requires bpm.Valid() && x in bpm.pins && Frames(1) && bpm.Room(1)
      requires bpm.pages[x].Leaf? && bpm.pages[x].Shaped() && Fits(bpm.pages[x])
      modifies bpm
      ensures bpm.Valid() && bpm.numPages <= old(bpm.numPages) + 1
      ensures n !in old(bpm.pages) && n != INVALID_PAGE_ID
      ensures bpm.pages == SplitPages(old(bpm.pages), x, n) && bpm.pins == Inc(old(bpm.pins), n)
      ensures bpm.unsaved <= old(bpm.unsaved) + {x, n}
    {
      var leaf := bpm.At(x);
      var blank := Leaf(leaf.parent, [], [], leaf.next);
      n := NewNode(blank);
      var linked := leaf.(next := n);
      Write(x, linked);
      var (lower, upper) := LeafMoveHalf(linked, blank);
      Write(x, lower);
      assert bpm.pages == old(bpm.pages)[n := blank][x := lower];
      Write(n, upper);
      WrittenBoth(old(bpm.pages), x, lower, n, blank, upper);
    }

    // ---- deletion: writing ----

    /** A child below the sibling pages `a` and `b` of the parent `q`. */
    predicate Child(c: PageId, q: PageId, a: PageId, b: PageId)
      reads bpm
    {
      c in bpm.pages && c != INVALID_PAGE_ID && c != a && c != b && c != q && Fits(bpm.pages[c])
    }

    /** The page `c` is a child that changes hands. */
    method SetParent(c: PageId, to: PageId)
      requires bpm.Valid() && Frames(1) && c in bpm.pages && c != INVALID_PAGE_ID && Fits(bpm.pages[c])
      modifies bpm`pages, bpm`pins, bpm`unsaved
      ensures bpm.Valid() && bpm.pins == old(bpm.pins) && bpm.unsaved <= old(bpm.unsaved)
      ensures bpm.pages == old(bpm.pages)[c := old(bpm.pages)[c].(parent := to)]
    {
      var fetched := bpm.Fetch(c);
      Write(c, bpm.At(c).(parent := to));
      DecInc(old(bpm.pins), c);
      var released := bpm.Unpin(c, true);
    }

    /** Redistribute from the left sibling `a` of `b`. */
    method WriteBorrowLeft(q: PageId, j: nat, a: PageId, b: PageId)
      requires bpm.Valid() && q in bpm.pins && a in bpm.pins && b in bpm.pins && a != b && a != q && b != q
      requires bpm.pages[q].Internal? && bpm.pages[q].Shaped() && 1 <= j < bpm.pages[q].Size() && Fits(bpm.pages[q])
      requires bpm.pages[a].Leaf? == bpm.pages[b].Leaf? && bpm.pages[a].Shaped() && bpm.pages[b].Shaped()
      requires 2 <= bpm.pages[a].Size() <= MaxSize(caps, bpm.pages[a])
      requires bpm.pages[b].Size() <= MaxSize(caps, bpm.pages[b])
      requires bpm.pages[b].Internal? ==> bpm.pages[b].Size() > 0 && Frames(1)
      requires bpm.pages[b].Internal? ==> Child(bpm.pages[a].kids[bpm.pages[a].Size() - 1], q, a, b)
      modifies bpm`pages, bpm`pins, bpm`unsaved
      ensures bpm.Valid() && bpm.pins == old(bpm.pins) && bpm.unsaved <= old(bpm.unsaved) + {a, b, q}
      ensures bpm.pages == BorrowLeft(old(bpm.pages), q, j, a, b)
    {
      var left, node, parent := bpm.At(a), bpm.At(b), bpm.At(q);
      if node.Leaf? {
        var (a2, b2) := LeafMoveLast(left, node);
        Write(a, a2);
        Write(b, b2);
        Write(q, SetKeyAt(parent, j, b2.keys[0]));
      } else {
        var newKey := left.keys[left.Size() - 1];
        var (a2, b2) := InternalMoveLast(left, node, parent.keys[j]);
        Write(a, a2);
        Write(b, b2);
        Write(q, SetKeyAt(parent, j, newKey));
        SetParent(b2.kids[0], b);
      }
    }

    /** Redistribute from the right sibling `b` of `a`. */
    method WriteBorrowRight(q: PageId, j: nat, a: PageId, b: PageId)
      requires bpm.Valid() && q in bpm.pins && a in bpm.pins && b in bpm.pins && a != b && a != q && b != q
      requires bpm.pages[q].Internal? && bpm.pages[q].Shaped() && 1 <= j < bpm.pages[q].Size() && Fits(bpm.pages[q])
      requires bpm.pages[a].Leaf? == bpm.pages[b].Leaf? && bpm.pages[a].Shaped() && bpm.pages[b].Shaped()
      requires 2 <= bpm.pages[b].Size() <= MaxSize(caps, bpm.pages[b])
      requires bpm.pages[a].Size() <= MaxSize(caps, bpm.pages[a])
      requires bpm.pages[b].Internal? ==> Frames(1) && Child(bpm.pages[b].kids[0], q, a, b)
      modifies bpm`pages, bpm`pins, bpm`unsaved
      ensures bpm.Valid() && bpm.pins == old(bpm.pins) && bpm.unsaved <= old(bpm.unsaved) + {a, b, q}
      ensures bpm.pages == BorrowRight(old(bpm.pages), q, j, a, b)
    {
      var node, right, parent := bpm.At(a), bpm.At(b), bpm.At(q);
      if node.Leaf? {
        var (b2, a2) := LeafMoveFirst(right, node);
        Write(a, a2);
        Write(b, b2);
        Write(q, SetKeyAt(parent, j, b2.keys[0]));
      } else {
        var newKey := right.keys[1];
        var (b2, a2) := InternalMoveFirst(right, node, parent.keys[j]);
        Write(a, a2);
        Write(b, b2);
        Write(q, SetKeyAt(parent, j, newKey));
        SetParent(a2.kids[a2.Size() - 1], a);
      }
    }

    /** Merge: everything in `b` goes to its left sibling `a`, and the parent `q` forgets `b`. */
    method Merge(q: PageId, j: nat, a: PageId, b: PageId)
      requires bpm.Valid() && q in bpm.pins && a in bpm.pins && b in bpm.pins && a != b && a != q && b != q
      requires bpm.pages[q].Internal? && bpm.pages[q].Shaped() && 1 <= j < bpm.pages[q].Size() && Fits(bpm.pages[q])
      requires bpm.pages[a].Leaf? == bpm.pages[b].Leaf? && bpm.pages[a].Shaped() && bpm.pages[b].Shaped()
      requires bpm.pages[a].Size() + bpm.pages[b].Size() <= MaxSize(caps, bpm.pages[a])
      requires bpm.pages[b].Internal? ==> bpm.pages[b].Size() > 0 && Frames(1)
      requires bpm.pages[b].Internal? ==> forall i :: 0 <= i < bpm.pages[a].Size() ==>
          Child(bpm.pages[a].kids[i], q, a, b)
      requires bpm.pages[b].Internal? ==> forall i :: 0 <= i < bpm.pages[b].Size() ==>
          Child(bpm.pages[b].kids[i], q, a, b)
      modifies bpm`pages, bpm`pins, bpm`unsaved
      ensures bpm.Valid() && bpm.pins == old(bpm.pins) && bpm.unsaved <= old(bpm.unsaved) + {a, b, q}
      ensures bpm.pages == MergePages(old(bpm.pages), q, j, a, b)
    {
      var left, right, parent := bpm.At(a), bpm.At(b), bpm.At(q);
      if left.Leaf? {
        var (b2, a2) := LeafMoveAll(right, left);
        Write(a, a2);
        Write(b, b2);
        Write(q, InternalRemoveAt(parent, j));
      } else {
        var (b2, a2) := InternalMoveAll(right, left, parent.keys[j]);
        Write(a, a2);
        Write(b, b2);
        SetParents(a2.kids, a);
        Write(q, InternalRemoveAt(parent, j));
      }
    }

    // ---- deletion: repair ----

    /** The page `x`, child `idx` of `q`, is one entry below the minimum and everything else is in order. */
    ghost predicate Lacking(x: PageId, q: PageId, idx: nat)
      reads this, bpm
    {
      && bpm.Valid() && rootPageId != INVALID_PAGE_ID
      && Inv(caps, bpm.pages, info, rootPageId, Under(x)) && Stores(bpm.pages, info, contents)
      && x in info && x in bpm.pins && q in info && q in bpm.pins
      && bpm.pages[q].Internal? && bpm.pages[q].Shaped() && idx < bpm.pages[q].Size() && bpm.pages[q].kids[idx] == x
      && bpm.pages[x].Size() < MaxSize(caps, bpm.pages[x]) / 2
    }

    /** Child `i` of `q` has no entry to give away. */
    ghost predicate CannotSpare(q: PageId, i: nat)
      reads bpm
    {
      && q in bpm.pages && bpm.pages[q].Internal? && i < |bpm.pages[q].kids|
      && var s := bpm.pages[q].kids[i]; s in bpm.pages && bpm.pages[s].Size() <= MaxSize(caps, bpm.pages[s]) / 2
    }

    /** Redistribute, from the left: `a` gives its last entry to `x`. */
    method RedistributeLeft(x: PageId, q: PageId, idx: nat, a: PageId)
      requires Lacking(x, q, idx) && idx > 0 && a == bpm.pages[q].kids[idx - 1] && a in info && a in bpm.pins
      requires Frames(1)
      requires bpm.pages[a].Size() > MaxSize(caps, bpm.pages[a]) / 2
      modifies this`info, bpm`pages, bpm`pins, bpm`unsaved
      ensures bpm.Valid() && bpm.pins == old(bpm.pins) && bpm.unsaved <= old(bpm.unsaved) + {a, x, q}
      ensures InOrder() && Apart(old(bpm.pages), old(info), bpm.pages, info)
      ensures LastMoves(old(bpm.pages), q, idx, a, x, bpm.pages)
      ensures info.Keys == old(info).Keys && Height() == old(Height()) && bpm.pages.Keys == old(bpm.pages).Keys
    {
      ghost var p0 := bpm.pages;
      assert Siblings(p0, info, rootPageId, q, idx, a, x);
      SiblingsReady(caps, p0, info, rootPageId, Under(x), q, idx, a, x);
      BorrowLeftStep(caps, p0, info, rootPageId, q, idx, a, x, contents);
      BorrowLeftMoves(p0, info, rootPageId, q, idx, a, x);
      WriteBorrowLeft(q, idx, a, x);
      info := ShiftInfo(info, a, x, p0[a].keys[p0[a].Size() - 1]);
      assert info.Keys == old(info).Keys;
    }

    /** Redistribute, from the right: `b` gives its first entry to `x`. */
    method RedistributeRight(x: PageId, q: PageId, idx: nat, b: PageId)
      requires Lacking(x, q, idx) && idx < bpm.pages[q].Size() - 1 && b == bpm.pages[q].kids[idx + 1]
      requires b in info && b in bpm.pins && Frames(1) && bpm.pages[b].Size() > MaxSize(caps, bpm.pages[b]) / 2
      modifies this`info, bpm`pages, bpm`pins, bpm`unsaved
      ensures bpm.Valid() && bpm.pins == old(bpm.pins) && bpm.unsaved <= old(bpm.unsaved) + {b, x, q}
      ensures InOrder() && Apart(old(bpm.pages), old(info), bpm.pages, info)
      ensures FirstMoves(old(bpm.pages), q, idx + 1, x, b, bpm.pages)
      ensures info.Keys == old(info).Keys && Height() == old(Height()) && bpm.pages.Keys == old(bpm.pages).Keys
    {
      ghost var p0 := bpm.pages;
      assert Siblings(p0, info, rootPageId, q, idx + 1, x, b);
      SiblingsReady(caps, p0, info, rootPageId, Under(x), q, idx + 1, x, b);
      BorrowRightStep(caps, p0, info, rootPageId, q, idx + 1, x, b, contents);
      BorrowRightMoves(p0, info, rootPageId, q, idx + 1, x, b);
      WriteBorrowRight(q, idx + 1, x, b);
      info := ShiftInfo(info, x, b, p0[b].keys[1]);
      assert info.Keys == old(info).Keys;
    }

    /** Takes an entry from the sibling at `idx - 1` or `idx + 1` if it can spare one. */
    method TryBorrow(x: PageId, q: PageId, idx: nat, fromLeft: bool) returns (done: bool)
      requires Lacking(x, q, idx) && Frames(2)
      requires if fromLeft then idx > 0 else idx < bpm.pages[q].Size() - 1
      modifies this`info, bpm`pages, bpm`pins, bpm`unsaved
      ensures bpm.Valid() && bpm.pins == old(bpm.pins) && bpm.unsaved <= old(bpm.unsaved) + {x, q}
      ensures var s := old(bpm.pages)[q].kids[if fromLeft then idx - 1 else idx + 1];
        && s in old(bpm.pages) && (old(bpm.pages)[s].Leaf? <==> old(bpm.pages)[x].Leaf?)
        && var most := if old(bpm.pages)[x].Leaf? then caps.leafMax else caps.internalMax;
           done <==> old(bpm.pages)[s].Size() > most / 2
      ensures done && fromLeft ==>
        LastMoves(old(bpm.pages), q, idx, old(bpm.pages)[q].kids[idx - 1], x, bpm.pages)
      ensures done && !fromLeft ==>
        FirstMoves(old(bpm.pages), q, idx + 1, x, old(bpm.pages)[q].kids[idx + 1], bpm.pages)
      ensures info.Keys == old(info).Keys && Height() == old(Height()) && bpm.pages.Keys == old(bpm.pages).Keys
      ensures done ==> InOrder() && Apart(old(bpm.pages), old(info), bpm.pages, info)
      ensures !done ==> bpm.pages == old(bpm.pages) && info == old(info) && bpm.unsaved == old(bpm.unsaved)
      ensures !done ==> q in bpm.pages && CannotSpare(q, if fromLeft then idx - 1 else idx + 1)
    {
      hide LastMoves, FirstMoves, Stores, Apart, LeafOk, Routing;
      assert NodeOk(bpm.pages, info, rootPageId, q);
      SameKind(bpm.pages, info, rootPageId, q, idx, if fromLeft then idx - 1 else idx + 1);
      var s := bpm.At(q).kids[if fromLeft then idx - 1 else idx + 1];
      IncSize(bpm.pins, s);
      DecInc(bpm.pins, s);
      var fetched := bpm.Fetch(s);
      done := bpm.At(s).Size() > MaxSize(caps, bpm.At(s)) / 2;
      if done {
        if fromLeft {
          RedistributeLeft(x, q, idx, s);
        } else {
          RedistributeRight(x, q, idx, s);
        }
      }
      var released := bpm.Unpin(s, done);
    }

    /** Neither neighbour can spare an entry: `x` and a sibling become one page, and `q` loses a child. */
    method MergeWithSibling(x: PageId, q: PageId, idx: nat, ghost key: Key)
      requires Lacking(x, q, idx) && Frames(2) && InRange(info[x], key)
      requires bpm.pages[q].Size() > 1 && CannotSpare(q, if idx > 0 then idx - 1 else 1)
      modifies this`info, bpm`pages, bpm`pins, bpm`unsaved
      ensures Merged(x, q)
      ensures var dropped := if idx > 0 then x else old(bpm.pages)[q].kids[1];
        && OneLeaves(old(info), dropped, old(info)[x].level, info)
        && bpm.pages.Keys == old(bpm.pages).Keys -
             if InRange(old(info)[dropped], key) || dropped in old(bpm.pins) then {} else {dropped}
    {
      if idx > 0 {
        MergeIntoLeft(x, q, idx);
      } else {
        assert NodeOk(bpm.pages, info, rootPageId, q);
        OffPath(bpm.pages, info, rootPageId, q, 1, x, bpm.pages[q].kids[1], key);
        MergeFromRight(x, q);
      }
    }

    /** The parent has lost a child, and nothing else is wrong. */
    twostate predicate Merged(x: PageId, q: PageId)
      requires old(rootPageId) in old(info) && q in old(info)
      reads this, bpm
    {
      && bpm.Valid() && bpm.pins == old(bpm.pins) && bpm.unsaved <= old(bpm.unsaved) + {x, q}
      && rootPageId == old(rootPageId)
      && q in info && info[q].level == old(info)[q].level
      && rootPageId in info && info[rootPageId].level == old(info)[rootPageId].level
      && Inv(caps, bpm.pages, info, rootPageId, Under(q)) && Stores(bpm.pages, info, contents)
      && Apart(old(bpm.pages), old(info), bpm.pages, info)
      && bpm.pages[q].Internal? && info.Keys <= old(info).Keys
    }

    /** `x` goes to its left sibling; it stays allocated, since it is pinned when it is to be deleted. */
    method MergeIntoLeft(x: PageId, q: PageId, idx: nat)
      requires Lacking(x, q, idx) && Frames(2) && idx > 0 && CannotSpare(q, idx - 1)
      modifies this`info, bpm`pages, bpm`pins, bpm`unsaved
      ensures Merged(x, q)
      ensures x !in info && x in bpm.pages && bpm.pages.Keys == old(bpm.pages).Keys
      ensures OneLeaves(old(info), x, old(info)[x].level, info)
    {
      assert NodeOk(bpm.pages, info, rootPageId, q);
      var a := bpm.At(q).kids[idx - 1];
      IncSize(bpm.pins, a);
      DecInc(bpm.pins, a);
      var fetched := bpm.Fetch(a);
      MergeSiblings(x, q, idx, a, x);
      var released := bpm.Unpin(a, true);
      var deleted := bpm.Delete(x);
    }

    /** The right sibling of the first child goes to `x`, and is deleted. */
    method MergeFromRight(x: PageId, q: PageId)
      requires Lacking(x, q, 0) && Frames(2) && bpm.pages[q].Size() > 1
      requires CannotSpare(q, 1)
      modifies this`info, bpm`pages, bpm`pins, bpm`unsaved
      ensures Merged(x, q)
      ensures var b := old(bpm.pages)[q].kids[1];
        && b in old(info) && b !in info && (b in bpm.pages <==> b in old(bpm.pins))
        && bpm.pages.Keys == old(bpm.pages).Keys - (if b in old(bpm.pins) then {} else {b})
        && OneLeaves(old(info), b, old(info)[x].level, info)
    {
      var b := bpm.At(q).kids[1];
      TakeRight(x, q);
      DeletedFrame(caps, bpm.pages, info, rootPageId, Under(q), contents, b);
      var deleted := bpm.Delete(b);
    }

    /** The right sibling of the first child goes to `x`. */
    method TakeRight(x: PageId, q: PageId)
      requires Lacking(x, q, 0) && Frames(2) && bpm.pages[q].Size() > 1
      requires CannotSpare(q, 1)
      modifies this`info, bpm`pages, bpm`pins, bpm`unsaved
      ensures Merged(x, q) && bpm.pages.Keys == old(bpm.pages).Keys
      ensures OneLeaves(old(info), old(bpm.pages)[q].kids[1], old(info)[x].level, info)
      ensures old(bpm.pages)[q].kids[1] != q
    {
      assert NodeOk(bpm.pages, info, rootPageId, q);
      var b := bpm.At(q).kids[1];
      IncSize(bpm.pins, b);
      DecInc(bpm.pins, b);
      var fetched := bpm.Fetch(b);
      MergeSiblings(x, q, 1, x, b);
      var released := bpm.Unpin(b, true);
    }

    /** Merge of the pinned siblings `a` and `b`, one of which is `x`; `b` leaves the tree. */
    method MergeSiblings(x: PageId, q: PageId, j: nat, a: PageId, b: PageId)
      requires 1 <= j && Lacking(x, q, if x == a then j - 1 else j) && (x == a || x == b) && Frames(1)
      requires j < bpm.pages[q].Size() && a == bpm.pages[q].kids[j - 1] && b == bpm.pages[q].kids[j]
      requires a in bpm.pins && b in bpm.pins
      requires bpm.pages[a].Size() <= MaxSize(caps, bpm.pages[a]) / 2
      requires bpm.pages[b].Size() <= MaxSize(caps, bpm.pages[b]) / 2
      modifies this`info, bpm`pages, bpm`pins, bpm`unsaved
      ensures bpm.Valid() && bpm.pins == old(bpm.pins) && bpm.unsaved <= old(bpm.unsaved) + {a, b, q}
      ensures q in info && info[q].level == old(info)[q].level && b !in info && a != b && b != q && a != q
      ensures rootPageId in info && info[rootPageId].level == old(info)[rootPageId].level
      ensures Inv(caps, bpm.pages, info, rootPageId, Under(q)) && Stores(bpm.pages, info, contents)
      ensures Apart(old(bpm.pages), old(info), bpm.pages, info) && b in old(info) && info.Keys <= old(info).Keys
      ensures bpm.pages[q].Internal? && bpm.pages.Keys == old(bpm.pages).Keys
      ensures OneLeaves(old(info), b, old(info)[x].level, info)
    {
      ghost var p0 := bpm.pages;
      assert NodeOk(p0, info, rootPageId, q);
      assert Siblings(p0, info, rootPageId, q, j, a, b);
      SiblingsReady(caps, p0, info, rootPageId, Under(x), q, j, a, b);
      MergeKeeps(p0, info, rootPageId, q, j, a, b);
      MergeStepInv(caps, p0, info, rootPageId, q, j, x, a, b, contents);
      Merge(q, j, a, b);
      info := MergeInfo(info, a, b);
    }

    /** Repairs a page that is one entry below the minimum, and the levels above as needed. */
    method HandleUnderflow(x: PageId, ghost key: Key)
      requires bpm.Valid() && rootPageId != INVALID_PAGE_ID && x in info && x in bpm.pins
      requires Inv(caps, bpm.pages, info, rootPageId, Under(x)) && Stores(bpm.pages, info, contents)
      requires if x == rootPageId then bpm.pages[x].Internal?
               else bpm.pages[x].Size() < MaxSize(caps, bpm.pages[x]) / 2
      requires Frames(Depth(x) + 2) && InRange(info[x], key)
      modifies this`info, this`rootPageId, bpm`pages, bpm`pins, bpm`unsaved
      ensures bpm.Valid() && InOrder()
      ensures bpm.pins == old(bpm.pins) && bpm.unsaved <= old(bpm.unsaved) + {x}
      ensures Apart(old(bpm.pages), old(info), bpm.pages, info)
      ensures info.Keys <= old(info).Keys && Height() <= old(Height())
      ensures Freed(old(bpm.pages).Keys, old(info), old(bpm.pins), key, old(info)[x].level, bpm.pages.Keys, info)
      decreases Depth(x), 0
    {
      hide LeafOk, InternalOk, Routing;
      assert NodeOk(bpm.pages, info, rootPageId, x);
      if bpm.At(x).parent == INVALID_PAGE_ID {
        ShrinkRoot(x);
        return;
      }
      var q := bpm.At(x).parent;
      assert NodeOk(bpm.pages, info, rootPageId, q);
      assert SizeOk(caps, bpm.pages, rootPageId, Under(x), q);
      IncSize(bpm.pins, q);
      DecInc(bpm.pins, q);
      var fetched := bpm.Fetch(q);
      ChildRange(bpm.pages, info, rootPageId, x, key);
      ghost var s0, g0 := bpm.pages.Keys, info;
      BorrowOrMerge(x, q, key);
      var released := bpm.Unpin(q, true);
      FreedPin(s0, g0, bpm.pins, key, g0[x].level, bpm.pages.Keys, info, q);
    }

    /** Child `idx` of `q` has received an entry: from the left sibling if that can spare one, else from the right. */
    twostate predicate Borrowed(x: PageId, q: PageId, idx: nat)
      requires q in old(bpm.pages) && old(bpm.pages)[q].Internal? && idx < |old(bpm.pages)[q].kids|
      reads bpm
    {
      var p, kids := old(bpm.pages), old(bpm.pages)[q].kids;
      if idx > 0 && Spare(caps, p, kids[idx - 1]) then LastMoves(p, q, idx, kids[idx - 1], x, bpm.pages)
      else idx < |kids| - 1 && FirstMoves(p, q, idx + 1, x, kids[idx + 1], bpm.pages)
    }

    /** The siblings are asked for an entry; if neither can spare one, a page is dropped. */
    twostate predicate Repaired(x: PageId, q: PageId)
      requires q in old(bpm.pages) && old(bpm.pages)[q].Internal?
      reads this, bpm
    {
      var kids := old(bpm.pages)[q].kids;
      var idx := FirstIndex(kids, x);
      && x in kids && |kids| >= 2
      && if Borrows(caps, old(bpm.pages), q, idx) then Borrowed(x, q, idx)
         else
           var dropped := if idx > 0 then x else kids[1]; dropped in old(info) && dropped !in info
    }

    /** The left sibling is asked first, then the right one; if neither can help, two pages become one. */
    method BorrowOrMerge(x: PageId, q: PageId, ghost key: Key)
      requires bpm.Valid() && rootPageId != INVALID_PAGE_ID && x in info && x in bpm.pins && x != rootPageId
      requires Inv(caps, bpm.pages, info, rootPageId, Under(x)) && Stores(bpm.pages, info, contents)
      requires bpm.pages[x].Size() < MaxSize(caps, bpm.pages[x]) / 2 && q == bpm.pages[x].parent
      requires q in info && q in bpm.pins && bpm.pages[q].Internal? && Depth(q) + 1 == Depth(x)
      requires Frames(Depth(q) + 2) && InRange(info[x], key) && InRange(info[q], key)
      requires info[q].level == info[x].level + 1
      modifies this`info, this`rootPageId, bpm`pages, bpm`pins, bpm`unsaved
      ensures bpm.Valid() && InOrder()
      ensures bpm.pins == old(bpm.pins) && bpm.unsaved <= old(bpm.unsaved) + {x, q}
      ensures Apart(old(bpm.pages), old(info), bpm.pages, info)
      ensures Repaired(x, q)
      ensures Freed(old(bpm.pages).Keys, old(info), old(bpm.pins), key, old(info)[x].level, bpm.pages.Keys, info)
      ensures info.Keys <= old(info).Keys && Height() <= old(Height())
      decreases Depth(q), 3
    {
      hide Apart, Stores, LastMoves, FirstMoves, Spare, LeafOk, Routing;
      assert NodeOk(bpm.pages, info, rootPageId, x);
      assert NodeOk(bpm.pages, info, rootPageId, q);
      assert SizeOk(caps, bpm.pages, rootPageId, Under(x), q);
      var idx := ChildSlot(q, x);
      var done := BorrowFromEither(x, q, idx);
      if !done {
        MergeAndRepair(x, q, idx, key);
      }
    }

    /** The left sibling is asked for an entry, then the right one. */
    method BorrowFromEither(x: PageId, q: PageId, idx: nat) returns (done: bool)
      requires Lacking(x, q, idx) && bpm.pages[q].Size() > 1 && Frames(2)
      modifies this`info, bpm`pages, bpm`pins, bpm`unsaved
      ensures bpm.Valid() && bpm.pins == old(bpm.pins) && bpm.unsaved <= old(bpm.unsaved) + {x, q}
      ensures done ==> InOrder() && Apart(old(bpm.pages), old(info), bpm.pages, info)
      ensures done ==> Borrows(caps, old(bpm.pages), q, idx) && Borrowed(x, q, idx)
      ensures info.Keys == old(info).Keys && Height() == old(Height()) && bpm.pages.Keys == old(bpm.pages).Keys
      ensures !done ==> bpm.pages == old(bpm.pages) && info == old(info) && bpm.unsaved == old(bpm.unsaved)
      ensures !done ==> !Borrows(caps, bpm.pages, q, idx) && CannotSpare(q, if idx > 0 then idx - 1 else 1)
    {
      done := false;
      if idx > 0 {
        done := TryBorrow(x, q, idx, true);
      }
      if !done && idx < bpm.At(q).Size() - 1 {
        done := TryBorrow(x, q, idx, false);
      }
    }

    /** Two pages become one, and the parent may then be too small in turn. */
    method MergeAndRepair(x: PageId, q: PageId, idx: nat, ghost key: Key)
      requires Lacking(x, q, idx) && info[q].level == info[x].level + 1
      requires InRange(info[x], key) && InRange(info[q], key)
      requires Depth(q) < Depth(x) && Frames(Depth(q) + 2) && bpm.pages[q].Size() > 1
      requires CannotSpare(q, if idx > 0 then idx - 1 else 1)
      modifies this`info, this`rootPageId, bpm`pages, bpm`pins, bpm`unsaved
      ensures bpm.Valid() && InOrder()
      ensures bpm.pins == old(bpm.pins) && bpm.unsaved <= old(bpm.unsaved) + {x, q}
      ensures Apart(old(bpm.pages), old(info), bpm.pages, info)
      ensures var dropped := if idx > 0 then x else old(bpm.pages)[q].kids[1];
        dropped in old(info) && dropped !in info
      ensures info.Keys <= old(info).Keys && Height() <= old(Height())
      ensures Freed(old(bpm.pages).Keys, old(info), old(bpm.pins), key, old(info)[x].level, bpm.pages.Keys, info)
      decreases Depth(q), 2
    {
      ghost var s0, g0, level := bpm.pages.Keys, info, info[x].level;
      ghost var dropped := if idx > 0 then x else bpm.pages[q].kids[1];
      MergeWithSibling(x, q, idx, key);
      assert bpm.unsaved <= old(bpm.unsaved) + {x, q};
      ghost var s1, g1 := bpm.pages.Keys, info;
      RepairParent(q, key);
      FreedThen(s0, g0, bpm.pins, key, dropped, level, s1, g1, bpm.pages.Keys, info);
    }

    /** The parent lost a child and may itself be too small now. */
    method RepairParent(q: PageId, ghost key: Key)
      requires bpm.Valid() && rootPageId != INVALID_PAGE_ID && q in info && q in bpm.pins && bpm.pages[q].Internal?
      requires Inv(caps, bpm.pages, info, rootPageId, Under(q)) && Stores(bpm.pages, info, contents)
      requires Frames(Depth(q) + 2) && InRange(info[q], key)
      modifies this`info, this`rootPageId, bpm`pages, bpm`pins, bpm`unsaved
      ensures bpm.Valid() && InOrder()
      ensures bpm.pins == old(bpm.pins) && bpm.unsaved <= old(bpm.unsaved) + {q}
      ensures Apart(old(bpm.pages), old(info), bpm.pages, info)
      ensures info.Keys <= old(info).Keys && Height() <= old(Height())
      ensures Freed(old(bpm.pages).Keys, old(info), old(bpm.pins), key, old(info)[q].level, bpm.pages.Keys, info)
      ensures old(bpm.pages)[q].Size() >= caps.internalMax / 2 ==> bpm.pages == old(bpm.pages) && info == old(info)
      decreases Depth(q), 1
    {
      assert SizeOk(caps, bpm.pages, rootPageId, Under(q), q);
      if bpm.At(q).Size() < MaxSize(caps, bpm.At(q)) / 2 {
        HandleUnderflow(q, key);
      } else {
        NoSlack(caps, bpm.pages, info, rootPageId, Under(q), q);
      }
    }

    /** Position of the child `x` in `q`. */
    method ChildSlot(q: PageId, x: PageId) returns (idx: nat)
      requires q in bpm.pins && q in bpm.pages && bpm.pages[q].Internal? && x in bpm.pages[q].kids
      ensures idx == FirstIndex(bpm.pages[q].kids, x)
      ensures idx < |bpm.pages[q].kids| && bpm.pages[q].kids[idx] == x
    {
      var kids := bpm.At(q).kids;
      idx := 0;
      while kids[idx] != x
        invariant idx <= FirstIndex(kids, x)
        decreases |kids| - idx
      {
        idx := idx + 1;
      }
    }

    /** An internal root with a single child gives way to it; its page stays behind, still pinned. */
    method ShrinkRoot(x: PageId)
      requires bpm.Valid() && x == rootPageId && x in info && x in bpm.pins && bpm.pages[x].Internal?
      requires Inv(caps, bpm.pages, info, rootPageId, Under(x)) && Stores(bpm.pages, info, contents)
      requires Frames(1)
      modifies this`info, this`rootPageId, bpm`pages, bpm`pins, bpm`unsaved
      ensures bpm.Valid() && InOrder()
      ensures bpm.pins == old(bpm.pins) && bpm.unsaved <= old(bpm.unsaved) + {x}
      ensures Apart(old(bpm.pages), old(info), bpm.pages, info)
      ensures info.Keys == old(info).Keys - if old(bpm.pages)[x].Size() == 1 then {x} else {}
      ensures bpm.pages.Keys == old(bpm.pages).Keys && old(info)[x] == RootInfo(old(info)[x].level)
      ensures Height() == old(Height()) - if old(bpm.pages)[x].Size() == 1 then 1 else 0
    {
      assert NodeOk(bpm.pages, info, rootPageId, x);
      assert SizeOk(caps, bpm.pages, rootPageId, Under(x), x);
      if bpm.At(x).Size() == 1 {
        CollapseStep(caps, bpm.pages, info, rootPageId, contents);
        AllFit(caps, bpm.pages, info, rootPageId, Under(x));
        var r := bpm.At(x).kids[0];
        SetParent(r, INVALID_PAGE_ID);
        var deleted := bpm.Delete(x);
        rootPageId := r;
        info := info - {x};
      } else {
        NoSlack(caps, bpm.pages, info, rootPageId, Under(x), x);
      }
    }

    /** Removes the key if it is present. */
    method Delete(key: Key) returns (ok: bool)
      requires Valid() && Frames(Height() + 2)
      modifies this, bpm`pages, bpm`pins, bpm`unsaved
      ensures Valid()
      ensures ok <==> key in old(contents)
      ensures contents == old(contents) - {key}
      ensures rootPageId == INVALID_PAGE_ID <==> contents == map[]
      ensures bpm.pins == if ok && contents == map[] then Inc(old(bpm.pins), old(rootPageId)) else old(bpm.pins)
      ensures bpm.unsaved <= old(bpm.unsaved) + if ok && contents == map[] then {old(rootPageId)} else {}
      ensures Apart(old(bpm.pages), old(info), bpm.pages, info)
      ensures info.Keys <= old(info).Keys && Height() <= old(Height())
      ensures forall id :: id in bpm.pages <==>
        && id in old(bpm.pages)
        && (id in old(info) && id !in info ==> InRange(old(info)[id], key) || id in old(bpm.pins))
      ensures forall x :: x in old(info) && Covers(old(bpm.pages), old(info), x, key) ==>
        old(bpm.pages)[x].Size() > caps.leafMax / 2 ==>
          && (info == old(info) || contents == map[])
          && forall id :: id in old(bpm.pages) && id != x ==> id in bpm.pages && bpm.pages[id] == old(bpm.pages)[id]
    {
      hide NodeOk, Stores, HasKey;
      if IsEmpty() {
        return false;
      }
      ghost var pins0, s0, g0 := bpm.pins, bpm.pages.Keys, info;
      var found, x := FindLeafPage(key);
      StoredInLeaf(bpm.pages, info, rootPageId, x, key, contents);
      forall y | y in info && bpm.pages[y].Leaf? && InRange(info[y], key)
        ensures y == x
      {
        OneLeafCovers(bpm.pages, info, rootPageId, x, y, key);
      }
      if !HasKey(bpm.At(x), key) {
        DecInc(old(bpm.pins), x);
        var released := bpm.Unpin(x, false);
        NotEmpty(caps, bpm.pages, info, rootPageId, contents);
        return false;
      }
      IncSize(old(bpm.pins), x);
      RemoveFromLeaf(x, key);
      FreedPin(s0, g0, pins0, key, 0, bpm.pages.Keys, info, x);
      ok := true;
      if !IsEmpty() {
        DecInc(old(bpm.pins), x);
        var released := bpm.Unpin(x, true);
        NotEmpty(caps, bpm.pages, info, rootPageId, contents);
      }
    }

    /** A present key leaves its leaf, which stays pinned. */
    method RemoveFromLeaf(x: PageId, key: Key)
      requires Valid() && x in info && x in bpm.pins && bpm.pages[x].Leaf? && InRange(info[x], key)
      requires bpm.pages[x].Shaped() && HasKey(bpm.pages[x], key)
      requires Frames(Height() + 1)
      modifies this, bpm`pages, bpm`pins, bpm`unsaved
      ensures Valid() && contents == old(contents) - {key}
      ensures rootPageId == INVALID_PAGE_ID ==> contents == map[] && x == old(rootPageId)
      ensures bpm.pins == old(bpm.pins) && bpm.unsaved <= old(bpm.unsaved) + {x}
      ensures Apart(old(bpm.pages), old(info), bpm.pages, info)
      ensures Height() <= old(Height())
      ensures Freed(old(bpm.pages).Keys, old(info), old(bpm.pins), key, 0, bpm.pages.Keys, info)
      ensures old(bpm.pages)[x].Size() > caps.leafMax / 2 ==> info == old(info) || rootPageId == INVALID_PAGE_ID
      ensures old(bpm.pages)[x].Size() > caps.leafMax / 2 ==>
        forall id :: id in old(bpm.pages) && id != x ==> id in bpm.pages && bpm.pages[id] == old(bpm.pages)[id]
    {
      hide Stores, Freed, NodeOk, LeafRemove;
      TakeOut(x, key);
      AfterRemoval(x, key);
    }

    /** The entry of the key is taken out of its leaf, which may then be one entry short. */
    method TakeOut(x: PageId, key: Key)
      requires Valid() && x in info && x in bpm.pins && bpm.pages[x].Leaf? && InRange(info[x], key)
      requires bpm.pages[x].Shaped() && HasKey(bpm.pages[x], key)
      modifies this`contents, bpm`pages, bpm`unsaved
      ensures bpm.Valid() && bpm.unsaved <= old(bpm.unsaved) + {x} && contents == old(contents) - {key}
      ensures bpm.pages.Keys == old(bpm.pages).Keys && x in bpm.pages
      ensures bpm.pages[x].Leaf? && bpm.pages[x].Size() == old(bpm.pages)[x].Size() - 1
      ensures forall id :: id in old(bpm.pages) && id != x ==> bpm.pages[id] == old(bpm.pages)[id]
      ensures Inv(caps, bpm.pages, info, rootPageId, Under(x)) && Stores(bpm.pages, info, contents)
    {
      hide LeafOk, Routing;
      var leaf := LeafRemove(bpm.At(x), key);
      LeafRemoveStep(caps, bpm.pages, info, rootPageId, x, key, contents);
      AllFit(caps, bpm.pages[x := leaf], info, rootPageId, Under(x));
      Write(x, leaf);
      contents := contents - {key};
    }

    /** A leaf that lost an entry may be too small, or an empty root. */
    method AfterRemoval(x: PageId, key: Key)
      requires bpm.Valid() && bpm.blank == BLANK && rootPageId != INVALID_PAGE_ID && x in info && x in bpm.pins
      requires Inv(caps, bpm.pages, info, rootPageId, Under(x)) && Stores(bpm.pages, info, contents)
      requires bpm.pages[x].Leaf? && InRange(info[x], key) && Frames(Height() + 1)
      modifies this`info, this`rootPageId, bpm`pages, bpm`pins, bpm`unsaved
      ensures Valid() && (rootPageId == INVALID_PAGE_ID ==> contents == map[] && x == old(rootPageId))
      ensures bpm.pins == old(bpm.pins) && bpm.unsaved <= old(bpm.unsaved) + {x}
      ensures Apart(old(bpm.pages), old(info), bpm.pages, info) && Height() <= old(Height())
      ensures Freed(old(bpm.pages).Keys, old(info), old(bpm.pins), key, 0, bpm.pages.Keys, info)
      ensures old(bpm.pages)[x].Size() >= caps.leafMax / 2 ==>
        bpm.pages == old(bpm.pages) && (info == old(info) || rootPageId == INVALID_PAGE_ID)
    {
      assert NodeOk(bpm.pages, info, rootPageId, x);
      var leaf := bpm.At(x);
      if leaf.parent == INVALID_PAGE_ID {
        if leaf.Size() == 0 {
          EmptyRoot(bpm.pages, info, rootPageId, contents);
          var deleted := bpm.Delete(rootPageId);
          rootPageId := INVALID_PAGE_ID;
          info := map[];
        } else {
          assert SizeOk(caps, bpm.pages, rootPageId, Under(x), x);
          NoSlack(caps, bpm.pages, info, rootPageId, Under(x), x);
        }
      } else {
        RepairLeaf(x, key);
      }
    }

    method RepairLeaf(x: PageId, ghost key: Key)
      requires bpm.Valid() && rootPageId != INVALID_PAGE_ID && x in info && x in bpm.pins && x != rootPageId
      requires Inv(caps, bpm.pages, info, rootPageId, Under(x)) && Stores(bpm.pages, info, contents)
      requires Frames(Depth(x) + 2) && bpm.pages[x].Leaf? && InRange(info[x], key)
      modifies this`info, this`rootPageId, bpm`pages, bpm`pins, bpm`unsaved
      ensures bpm.Valid() && InOrder()
      ensures bpm.pins == old(bpm.pins) && bpm.unsaved <= old(bpm.unsaved) + {x}
      ensures Apart(old(bpm.pages), old(info), bpm.pages, info)
      ensures info.Keys <= old(info).Keys && Height() <= old(Height())
      ensures Freed(old(bpm.pages).Keys, old(info), old(bpm.pins), key, 0, bpm.pages.Keys, info)
      ensures old(bpm.pages)[x].Size() >= caps.leafMax / 2 ==> bpm.pages == old(bpm.pages) && info == old(info)
    {
      assert SizeOk(caps, bpm.pages, rootPageId, Under(x), x);
      if bpm.At(x).Size() >= MaxSize(caps, bpm.At(x)) / 2 {
        NoSlack(caps, bpm.pages, info, rootPageId, Under(x), x);
      } else {
        HandleUnderflow(x, key);
      }
    }
  }
}

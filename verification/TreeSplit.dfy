/** Splitting a page in two and linking the new half under the parent keeps the tree a tree. */
module TreeSplit {
  import opened Types
  import opened Nodes
  import opened TreeInvariant

  /** Every page in `ids` gets the parent `to`. */
  function Reparent(p: Pages, ids: seq<PageId>, to: PageId): Pages {
    map id | id in p :: if id in ids then p[id].(parent := to) else p[id]
  }

  lemma ReparentNext(p: Pages, ids: seq<PageId>, i: nat, to: PageId)
    requires i < |ids| && ids[i] in p
    ensures Reparent(p, ids[..i + 1], to) ==
            Reparent(p, ids[..i], to)[ids[i] := Reparent(p, ids[..i], to)[ids[i]].(parent := to)]
  {
    assert ids[..i + 1] == ids[..i] + [ids[i]];
  }

  /** The new half `n` of `x` is entered in the parent of `x`, after `x`. */
  function Link(p: Pages, x: PageId, key: Key, n: PageId): Pages
    requires x in p && n in p && p[x].parent in p
    requires p[p[x].parent].Internal? && p[p[x].parent].Shaped()
  {
    var q := p[x].parent;
    var listing, child := InsertNodeAfter(p[q], x, key, n), p[n].(parent := q);
    p[q := listing][n := child]
  }

  /** The old root `x` and its new half `n` become the children of the new root `r`. */
  function LinkRoot(p: Pages, x: PageId, key: Key, n: PageId, r: PageId): Pages
    requires x in p && n in p
  {
    p[r := Internal(INVALID_PAGE_ID, [0, key], [x, n])][x := p[x].(parent := r)][n := p[n].(parent := r)]
  }

  function RootInfo(level: nat): Info {
    Info(level, NegInf, PosInf)
  }

  /**
   The tree is complete except that `n`, split off from `x` at `key`, is not listed by a parent yet:
   listing it leaves a correct tree in which at most that parent is one entry too full.
   */
  ghost predicate Linkable(c: Caps, p: Pages, g: Infos, root: PageId, x: PageId, key: Key, n: PageId) {
    && CapsOk(c)
    && x in g && n in g && n != x && n != root && root in g && g.Keys <= p.Keys
    && g[x].level <= g[root].level
    && if x == root then
         && p[x].parent == INVALID_PAGE_ID
         && forall r {:trigger LinkRoot(p, x, key, n, r)} :: r !in p && r != INVALID_PAGE_ID ==>
              Inv(c, LinkRoot(p, x, key, n, r), g[r := RootInfo(g[x].level + 1)], r, Exact)
       else
         && p[x].parent in g && p[x].parent != INVALID_PAGE_ID && p[x].parent != n
         && p[p[x].parent].Internal? && p[p[x].parent].Shaped()
         && g[p[x].parent].level == g[x].level + 1
         && g[x].level < g[root].level
         && x in p[p[x].parent].kids
         && Inv(c, Link(p, x, key, n), g, root, Over(p[x].parent))
  }

  function SplitInfo(g: Infos, x: PageId, key: Key, n: PageId): Infos
    requires x in g
  {
    g[x := g[x].(hi := Fin(key))][n := g[x].(lo := Fin(key))]
  }

  /** How the linked pages `p2` relate to the pages `p` before `x` was split; `moved` went from `x` to `n`. */
  ghost predicate SplitStep(p: Pages, g: Infos, root: PageId, x: PageId, key: Key, n: PageId, moved: seq<PageId>,
                            p2: Pages) {
    && Shape(p, g, root) && x in g && x != root && n !in g && n != INVALID_PAGE_ID
    && Less(g[x].lo, Fin(key)) && Less(Fin(key), g[x].hi)
    && g.Keys + {n} <= p2.Keys
    && p[x].parent in g && p[p[x].parent].Internal? && p[p[x].parent].Shaped()
    && p2[p[x].parent] == InsertNodeAfter(p[p[x].parent], x, key, n)
    && p2[x].parent == p[x].parent && p2[n].parent == p[x].parent
    && (p2[x].Leaf? <==> p[x].Leaf?) && (p2[n].Leaf? <==> p[x].Leaf?)
    && (forall id :: id in g && id != x && id != p[x].parent ==>
          p2[id] == if id in moved then p[id].(parent := n) else p[id])
    && (if p[x].Leaf? then moved == []
        else p2[n].Internal? && moved == p2[n].kids && p[x].kids == p2[x].kids + p2[n].kids)
  }

  /** The pages that move to the new half were children of the split page. */
  lemma MovedKids(p: Pages, g: Infos, root: PageId, x: PageId, key: Key, n: PageId, moved: seq<PageId>, p2: Pages)
    requires SplitStep(p, g, root, x, key, n, moved, p2)
    ensures forall k :: k in moved ==> k in g && p[k].parent == x
  {
    assert NodeOk(p, g, root, x);
    forall k | k in moved
      ensures k in g && p[k].parent == x
    {
      var j :| 0 <= j < |moved| && moved[j] == k;
      assert p[x].kids[|p2[x].kids| + j] == k;
    }
  }

  /** Pages other than the two halves and their parent stay correct. */
  lemma SplitOther(p: Pages, g: Infos, root: PageId, x: PageId, key: Key, n: PageId, moved: seq<PageId>, p2: Pages,
                   id: PageId)
    requires SplitStep(p, g, root, x, key, n, moved, p2)
    requires id in g && id != x && id != p[x].parent
    ensures NodeOk(p2, SplitInfo(g, x, key, n), root, id)
  {
    var g2 := SplitInfo(g, x, key, n);
    assert NodeOk(p, g, root, id);
    assert NodeOk(p, g, root, x);
    assert NodeOk(p, g, root, p[x].parent);
    MovedKids(p, g, root, x, key, n, moved, p2);
    assert ParentOk(p2, g2, root, id);
    if p[id].Leaf? {
      assert LeafOk(p2, g2, id);
    } else {
      forall i | 0 <= i < |p[id].kids|
        ensures p2[p[id].kids[i]].parent == id && g2[p[id].kids[i]] == ChildInfo(g2[id], p[id].keys, i)
      {
        assert p[id].kids[i] != x;
      }
      assert InternalOk(p2, g2, id);
    }
  }

  /** Entering `key` after position `j` of the routing keys splits the range of child `j`. */
  lemma InsertKey(inf: Info, keys: seq<Key>, j: nat, key: Key, i: nat)
    requires inf.level > 0 && j < |keys| && i <= |keys|
    ensures var keys2, c := InsertAt(keys, j + 1, key), ChildInfo(inf, keys, if i <= j then i else i - 1);
      ChildInfo(inf, keys2, i) ==
        if i == j then c.(hi := Fin(key)) else if i == j + 1 then c.(lo := Fin(key)) else c
  {
    var keys2 := InsertAt(keys, j + 1, key);
    assert i <= j ==> keys2[i] == keys[i];
    assert i > j + 1 ==> keys2[i] == keys[i - 1];
    if i < |keys| {
      assert keys2[i + 1] == if i < j then keys[i + 1] else if i == j then key else keys[i];
    }
  }

  lemma InsertRouting(inf: Info, keys: seq<Key>, j: nat, key: Key)
    requires inf.level > 0 && j < |keys| && Routing(inf, keys) && Less(inf.lo, inf.hi)
    requires Less(ChildInfo(inf, keys, j).lo, Fin(key)) && Less(Fin(key), ChildInfo(inf, keys, j).hi)
    ensures Routing(inf, InsertAt(keys, j + 1, key))
  {
    var keys2 := InsertAt(keys, j + 1, key);
    forall i | 1 <= i < |keys2|
      ensures Less(inf.lo, Fin(keys2[i])) && Less(Fin(keys2[i]), inf.hi)
      ensures i <= j ==> keys2[i] == keys[i] < key
      ensures i == j + 1 ==> keys2[i] == key
      ensures i > j + 1 ==> keys2[i] == keys[i - 1] > key
    {
    }
  }

  /** The i-th child after an insertion, with its range. */
  lemma KidAfterInsert(inf: Info, q: Node, x: PageId, key: Key, n: PageId, i: nat)
    requires inf.level > 0 && q.Internal? && q.Shaped() && x in q.kids && i <= |q.kids|
    ensures var j, r := FirstIndex(q.kids, x), InsertNodeAfter(q, x, key, n);
      var i0 := if i <= j then i else i - 1;
      var c := ChildInfo(inf, q.keys, i0);
      && r.kids[i] == (if i == j + 1 then n else q.kids[i0])
      && ChildInfo(inf, r.keys, i) ==
          if i == j then c.(hi := Fin(key)) else if i == j + 1 then c.(lo := Fin(key)) else c
  {
    InsertKey(inf, q.keys, FirstIndex(q.kids, x), key, i);
  }

  /** Where the children of the parent end up: those after `x` move one place. */
  lemma SplitParentKid(p: Pages, g: Infos, root: PageId, x: PageId, key: Key, n: PageId, moved: seq<PageId>,
                       p2: Pages, i: nat)
    requires SplitStep(p, g, root, x, key, n, moved, p2)
    requires p2[p[x].parent].Shaped() && i < p2[p[x].parent].Size()
    ensures var q, g2 := p[x].parent, SplitInfo(g, x, key, n);
      && p2[q].kids[i] in g2 && p2[p2[q].kids[i]].parent == q
      && g2[q].level > 0 && g2[p2[q].kids[i]] == ChildInfo(g2[q], p2[q].keys, i)
  {
    hide InsertNodeAfter, ChildInfo, Routing, LeafOk;
    var q := p[x].parent;
    assert NodeOk(p, g, root, q);
    assert NodeOk(p, g, root, x);
    InsertedSize(p[q], x, key, n);
    var j := FirstIndex(p[q].kids, x);
    var i0 := if i <= j then i else i - 1;
    var a := p[q].kids[i0];
    ChildIndex(p, g, root, q, i0);
    KidAfterInsert(g[q], p[q], x, key, n, i);
    KidKept(p, g, root, x, key, n, moved, p2, a);
  }

  lemma InsertedSize(q: Node, x: PageId, key: Key, n: PageId)
    requires q.Internal? && q.Shaped()
    ensures InsertNodeAfter(q, x, key, n).Size() == q.Size() + 1
  {
  }

  /** The children of the parent keep it as their parent. */
  lemma KidKept(p: Pages, g: Infos, root: PageId, x: PageId, key: Key, n: PageId, moved: seq<PageId>, p2: Pages,
                a: PageId)
    requires SplitStep(p, g, root, x, key, n, moved, p2) && a in p[p[x].parent].kids
    ensures a in g && a in p2 && a != p[x].parent && p2[a].parent == p[x].parent
  {
    hide InsertNodeAfter, Routing, LeafOk;
    assert NodeOk(p, g, root, x);
    assert NodeOk(p, g, root, p[x].parent);
    MovedKids(p, g, root, x, key, n, moved, p2);
  }

  lemma SplitParentRouting(p: Pages, g: Infos, root: PageId, x: PageId, key: Key, n: PageId, moved: seq<PageId>,
                           p2: Pages)
    requires SplitStep(p, g, root, x, key, n, moved, p2)
    ensures var q, g2 := p[x].parent, SplitInfo(g, x, key, n);
      && g2[q] == g[q] && Less(g[q].lo, g[q].hi) && g[q].level > 0
      && p2[q].Size() >= 1 && Routing(g[q], p2[q].keys)
  {
    var q := p[x].parent;
    var j := FirstIndex(p[q].kids, x);
    assert NodeOk(p, g, root, q);
    assert NodeOk(p, g, root, x);
    assert g[x] == ChildInfo(g[q], p[q].keys, j);
    InsertRouting(g[q], p[q].keys, j, key);
  }

  /** The parent of a page is one level up and lists it. */
  lemma ParentAbove(p: Pages, g: Infos, root: PageId, x: PageId)
    requires Shape(p, g, root) && x in g
    ensures ParentOk(p, g, root, x)
    ensures x != root ==> p[x].parent in g && g[p[x].parent].level == g[x].level + 1
  {
    assert NodeOk(p, g, root, x);
    if x != root {
      ChildRange(p, g, root, x, SomeKey(g[x]));
    }
  }

  lemma SplitGrandparent(p: Pages, g: Infos, root: PageId, x: PageId, key: Key, n: PageId, moved: seq<PageId>,
                         p2: Pages)
    requires SplitStep(p, g, root, x, key, n, moved, p2)
    ensures ParentOk(p2, SplitInfo(g, x, key, n), root, p[x].parent)
  {
    hide NodeOk;
    var q := p[x].parent;
    ParentAbove(p, g, root, x);
    ParentAbove(p, g, root, q);
  }

  /** The parent lists both halves. */
  lemma SplitParent(p: Pages, g: Infos, root: PageId, x: PageId, key: Key, n: PageId, moved: seq<PageId>, p2: Pages)
    requires SplitStep(p, g, root, x, key, n, moved, p2)
    ensures NodeOk(p2, SplitInfo(g, x, key, n), root, p[x].parent)
  {
    var g2 := SplitInfo(g, x, key, n);
    var q := p[x].parent;
    SplitParentRouting(p, g, root, x, key, n, moved, p2);
    SplitGrandparent(p, g, root, x, key, n, moved, p2);
    forall i | 0 <= i < |p2[q].kids|
      ensures p2[q].kids[i] in g2 && p2[p2[q].kids[i]].parent == q
      ensures g2[p2[q].kids[i]] == ChildInfo(g2[q], p2[q].keys, i)
    {
      SplitParentKid(p, g, root, x, key, n, moved, p2, i);
    }
    assert InternalOk(p2, g2, q);
  }

  lemma SplitShape(p: Pages, g: Infos, root: PageId, x: PageId, key: Key, n: PageId, moved: seq<PageId>, p2: Pages)
    requires SplitStep(p, g, root, x, key, n, moved, p2)
    requires NodeOk(p2, SplitInfo(g, x, key, n), root, x)
    requires NodeOk(p2, SplitInfo(g, x, key, n), root, n)
    ensures Shape(p2, SplitInfo(g, x, key, n), root)
  {
    var g2 := SplitInfo(g, x, key, n);
    forall id | id in g2
      ensures NodeOk(p2, g2, root, id)
    {
      if id == p[x].parent {
        SplitParent(p, g, root, x, key, n, moved, p2);
      } else if id != x && id != n {
        SplitOther(p, g, root, x, key, n, moved, p2, id);
      }
    }
  }

  /** Both halves are listed by the parent. */
  lemma HalvesParent(p: Pages, g: Infos, root: PageId, x: PageId, key: Key, n: PageId, moved: seq<PageId>, p2: Pages)
    requires SplitStep(p, g, root, x, key, n, moved, p2)
    ensures ParentOk(p2, SplitInfo(g, x, key, n), root, x)
    ensures ParentOk(p2, SplitInfo(g, x, key, n), root, n)
  {
    assert NodeOk(p, g, root, x);
    ListedAfterLink(p[p[x].parent], x, key, n);
  }

  /** The two halves of a leaf. */
  lemma LeafHalves(p: Pages, g: Infos, root: PageId, x: PageId, n: PageId, c: nat, p2: Pages)
    requires Shape(p, g, root) && x in g && p[x].Leaf? && 0 < c < p[x].Size() && p[x].Shaped()
    requires SplitStep(p, g, root, x, p[x].keys[c], n, [], p2)
    requires p2[x] == p[x].(keys := p[x].keys[..c], vals := p[x].vals[..c], next := n)
    requires p2[n] == p[x].(keys := p[x].keys[c..], vals := p[x].vals[c..])
    ensures NodeOk(p2, SplitInfo(g, x, p[x].keys[c], n), root, x)
    ensures NodeOk(p2, SplitInfo(g, x, p[x].keys[c], n), root, n)
  {
    var g2 := SplitInfo(g, x, p[x].keys[c], n);
    assert NodeOk(p, g, root, x);
    HalvesParent(p, g, root, x, p[x].keys[c], n, [], p2);
    assert LeafOk(p2, g2, x);
    assert LeafOk(p2, g2, n);
  }

  lemma ListedAfterLink(q: Node, x: PageId, key: Key, n: PageId)
    requires q.Internal? && q.Shaped() && x in q.kids
    ensures x in InsertNodeAfter(q, x, key, n).kids && n in InsertNodeAfter(q, x, key, n).kids
  {
    var i := FirstIndex(q.kids, x);
    var kids := InsertNodeAfter(q, x, key, n).kids;
    assert kids[i] == x && kids[i + 1] == n;
  }

  /** Where the children of a split internal page end up. */
  lemma SplitKid(p: Pages, g: Infos, root: PageId, x: PageId, n: PageId, c: nat, p2: Pages, i: nat)
    requires Shape(p, g, root) && x in g && p[x].Internal? && 0 < c < p[x].Size() && p[x].Shaped()
    requires SplitStep(p, g, root, x, p[x].keys[c], n, p[x].kids[c..], p2)
    requires i < p[x].Size()
    ensures var k, g2 := p[x].kids[i], SplitInfo(g, x, p[x].keys[c], n);
      && k in g2 && p2[k].parent == (if i < c then x else n)
      && g[x].level > 0 && g2[k] == ChildInfo(g[x], p[x].keys, i)
  {
    var k := p[x].kids[i];
    assert NodeOk(p, g, root, x);
    assert NodeOk(p, g, root, p[x].parent);
    assert g[k] == ChildInfo(g[x], p[x].keys, i);
    if i < c {
      assert forall j :: c <= j < p[x].Size() ==> g[p[x].kids[j]] == ChildInfo(g[x], p[x].keys, j);
      assert k !in p[x].kids[c..];
    } else {
      assert p[x].kids[c..][i - c] == k;
    }
  }

  lemma CutRouting(inf: Info, keys: seq<Key>, c: nat)
    requires 0 < c < |keys| && Routing(inf, keys)
    ensures Routing(inf.(hi := Fin(keys[c])), keys[..c]) && Routing(inf.(lo := Fin(keys[c])), keys[c..])
  {
  }

  /** The lower half of an internal page. */
  lemma InternalLower(p: Pages, g: Infos, root: PageId, x: PageId, n: PageId, c: nat, p2: Pages)
    requires Shape(p, g, root) && x in g && p[x].Internal? && 0 < c < p[x].Size() && p[x].Shaped()
    requires SplitStep(p, g, root, x, p[x].keys[c], n, p[x].kids[c..], p2)
    requires p2[x] == p[x].(keys := p[x].keys[..c], kids := p[x].kids[..c])
    ensures NodeOk(p2, SplitInfo(g, x, p[x].keys[c], n), root, x)
  {
    hide InsertNodeAfter, Routing, ParentOk;
    var g2 := SplitInfo(g, x, p[x].keys[c], n);
    HalvesParent(p, g, root, x, p[x].keys[c], n, p[x].kids[c..], p2);
    assert NodeOk(p, g, root, x);
    CutRouting(g[x], p[x].keys, c);
    forall i | 0 <= i < |p2[x].kids|
      ensures p2[x].kids[i] in g2 && p2[p2[x].kids[i]].parent == x
      ensures g2[p2[x].kids[i]] == ChildInfo(g2[x], p2[x].keys, i)
    {
      SplitKid(p, g, root, x, n, c, p2, i);
    }
    assert InternalOk(p2, g2, x);
  }

  /** The upper half of an internal page. */
  lemma InternalUpper(p: Pages, g: Infos, root: PageId, x: PageId, n: PageId, c: nat, p2: Pages)
    requires Shape(p, g, root) && x in g && p[x].Internal? && 0 < c < p[x].Size() && p[x].Shaped()
    requires SplitStep(p, g, root, x, p[x].keys[c], n, p[x].kids[c..], p2)
    requires p2[n] == p[x].(keys := p[x].keys[c..], kids := p[x].kids[c..])
    ensures NodeOk(p2, SplitInfo(g, x, p[x].keys[c], n), root, n)
  {
    hide InsertNodeAfter;
    var g2 := SplitInfo(g, x, p[x].keys[c], n);
    HalvesParent(p, g, root, x, p[x].keys[c], n, p[x].kids[c..], p2);
    assert NodeOk(p, g, root, x);
    CutRouting(g[x], p[x].keys, c);
    forall i | 0 <= i < |p2[n].kids|
      ensures p2[n].kids[i] in g2 && p2[p2[n].kids[i]].parent == n
      ensures g2[p2[n].kids[i]] == ChildInfo(g2[n], p2[n].keys, i)
    {
      SplitKid(p, g, root, x, n, c, p2, c + i);
    }
    assert InternalOk(p2, g2, n);
  }

  // ---- from an overfull page to a linkable pair ----

  /** Splitting page `x` into itself and the fresh page `n`, children of `n` included. */
  function SplitPages(p: Pages, x: PageId, n: PageId): Pages
    requires x in p && p[x].Shaped()
  {
    if p[x].Leaf? then
      var (lower, upper) := LeafMoveHalf(p[x].(next := n), Leaf(p[x].parent, [], [], p[x].next));
      p[x := lower][n := upper]
    else
      var (lower, upper) := InternalMoveHalf(p[x], Internal(p[x].parent, [], []));
      Reparent(p[x := lower][n := upper], upper.kids, n)
  }

  /** The routing key that separates the two halves. */
  function SplitKey(n: Node): Key
    requires n.Size() >= 2
  {
    n.keys[Cut(n.Size())]
  }

  /** A new root with the old root as its only child. */
  function Grow(p: Pages, x: PageId, r: PageId): Pages
    requires x in p
  {
    p[r := Internal(INVALID_PAGE_ID, [0], [x])][x := p[x].(parent := r)]
  }

  lemma GrowShape(p: Pages, g: Infos, root: PageId, r: PageId)
    requires Shape(p, g, root) && r !in g && r != INVALID_PAGE_ID
    ensures Shape(Grow(p, root, r), g[r := RootInfo(g[root].level + 1)], r)
  {
    var p2, g2 := Grow(p, root, r), g[r := RootInfo(g[root].level + 1)];
    assert NodeOk(p, g, root, root);
    forall id | id in g2
      ensures NodeOk(p2, g2, r, id)
    {
      if id == r {
        assert InternalOk(p2, g2, r);
      } else {
        assert NodeOk(p, g, root, id);
        if id == root {
          assert r in p2 && p2[r].kids[0] == root;
        }
        assert ParentOk(p2, g2, r, id);
        if p[id].Leaf? {
          assert LeafOk(p2, g2, id);
        } else {
          assert InternalOk(p2, g2, id);
        }
      }
    }
  }

  /** The key at which a page of at least two entries is cut lies strictly inside its range. */
  lemma SplitKeyInside(p: Pages, g: Infos, root: PageId, x: PageId)
    requires Shape(p, g, root) && x in g && p[x].Size() >= 2
    ensures p[x].Shaped() && 0 < Cut(p[x].Size()) < p[x].Size()
    ensures Less(g[x].lo, Fin(SplitKey(p[x]))) && Less(Fin(SplitKey(p[x])), g[x].hi)
  {
    assert NodeOk(p, g, root, x);
    if p[x].Leaf? {
      assert InRange(g[x], p[x].keys[0]) && p[x].keys[0] < SplitKey(p[x]);
      assert InRange(g[x], SplitKey(p[x]));
    }
  }

  /** A page is not among its own children, and neither is its parent or a fresh page. */
  lemma NotMoved(p: Pages, g: Infos, root: PageId, x: PageId, n: PageId)
    requires Shape(p, g, root) && x in g && p[x].Internal? && n !in g
    ensures x !in p[x].kids && n !in p[x].kids && p[x].parent !in p[x].kids
  {
    assert NodeOk(p, g, root, x);
    if x != root {
      assert NodeOk(p, g, root, p[x].parent);
    }
  }

  /** The children that leave a split page. */
  function Moved(n: Node): seq<PageId> {
    if n.Internal? && n.Shaped() then n.kids[Cut(n.Size())..] else []
  }

  lemma SplitPagesAre(p: Pages, g: Infos, root: PageId, x: PageId, n: PageId)
    requires Shape(p, g, root) && x in g && p[x].Shaped() && n !in g
    ensures var s, c := SplitPages(p, x, n), Cut(p[x].Size());
      && s.Keys == p.Keys + {n}
      && (forall id :: id in p && id != x && id != n ==>
            s[id] == if id in Moved(p[x]) then p[id].(parent := n) else p[id])
      && (p[x].Leaf? ==>
            && s[x] == p[x].(keys := p[x].keys[..c], vals := p[x].vals[..c], next := n)
            && s[n] == p[x].(keys := p[x].keys[c..], vals := p[x].vals[c..]))
      && (p[x].Internal? ==>
            && s[x] == p[x].(keys := p[x].keys[..c], kids := p[x].kids[..c])
            && s[n] == p[x].(keys := p[x].keys[c..], kids := p[x].kids[c..]))
  {
    if p[x].Internal? {
      NotMoved(p, g, root, x, n);
      assert x !in Moved(p[x]) && n !in Moved(p[x]);
    }
  }

  /** The pages of the tree with both halves linked below the parent. */
  function SplitLink(p: Pages, x: PageId, n: PageId): Pages
    requires x in p && p[x].Shaped() && p[x].Size() >= 2
    requires p[x].parent in p && p[p[x].parent].Internal? && p[p[x].parent].Shaped()
    requires p[x].parent != x && p[x].parent != n
  {
    Link(SplitPages(p, x, n), x, SplitKey(p[x]), n)
  }

  lemma ParentBeside(p: Pages, g: Infos, root: PageId, x: PageId)
    requires Shape(p, g, root) && x in g && x != root
    ensures var q := p[x].parent; q in g && q != x && p[q].Internal? && p[q].Shaped() && x in p[q].kids
    ensures p[x].Internal? ==> p[x].parent !in p[x].kids
  {
    assert NodeOk(p, g, root, x);
    assert NodeOk(p, g, root, p[x].parent);
  }

  lemma SplitLinkIsStep(p: Pages, g: Infos, root: PageId, x: PageId, n: PageId)
    requires Shape(p, g, root) && x in g && x != root && p[x].Shaped() && p[x].Size() >= 2
    requires n !in g && n != INVALID_PAGE_ID
    ensures var q := p[x].parent;
      && q in g && q != x && q != n && p[q].Internal? && p[q].Shaped()
      && q !in Moved(p[x])
      && SplitPages(p, x, n)[q] == p[q] && SplitPages(p, x, n)[x].parent == q
      && SplitStep(p, g, root, x, SplitKey(p[x]), n, Moved(p[x]), SplitLink(p, x, n))
  {
    hide NodeOk, SplitPages, InsertNodeAfter;
    ParentBeside(p, g, root, x);
    SplitKeyInside(p, g, root, x);
    SplitPagesAre(p, g, root, x, n);
    if p[x].Internal? {
      NotMoved(p, g, root, x, n);
      assert p[x].kids == p[x].kids[..Cut(p[x].Size())] + Moved(p[x]);
    }
  }

  /** The linked pages are a tree again. */
  lemma SplitLinkShape(p: Pages, g: Infos, root: PageId, x: PageId, n: PageId)
    requires Shape(p, g, root) && x in g && x != root && p[x].Shaped() && p[x].Size() >= 2
    requires n !in g && n != INVALID_PAGE_ID
    requires var q := p[x].parent; q in g && q != x && q != n && p[q].Internal? && p[q].Shaped()
    ensures Shape(SplitLink(p, x, n), SplitInfo(g, x, SplitKey(p[x]), n), root)
  {
    hide NodeOk, SplitStep, SplitPages, InsertNodeAfter, SplitInfo;
    var c, p2 := Cut(p[x].Size()), SplitLink(p, x, n);
    SplitLinkIsStep(p, g, root, x, n);
    SplitKeyInside(p, g, root, x);
    SplitPagesAre(p, g, root, x, n);
    if p[x].Leaf? {
      LeafHalves(p, g, root, x, n, c, p2);
    } else {
      InternalLower(p, g, root, x, n, c, p2);
      InternalUpper(p, g, root, x, n, c, p2);
    }
    SplitShape(p, g, root, x, SplitKey(p[x]), n, Moved(p[x]), p2);
  }

  lemma SplitStepSizes(p: Pages, g: Infos, root: PageId, x: PageId, key: Key, n: PageId, moved: seq<PageId>, p2: Pages)
    requires SplitStep(p, g, root, x, key, n, moved, p2)
    ensures x in g && x != root && n !in g && root in g && g.Keys <= p.Keys && g.Keys + {n} <= p2.Keys
    ensures p2[x].Leaf? == p2[n].Leaf? == p[x].Leaf?
    ensures forall id :: id in g && id != x && id != p[x].parent ==>
      p2[id].Leaf? == p[id].Leaf? && p2[id].Size() == p[id].Size()
  {
    hide InsertNodeAfter, NodeOk;
  }

  /** Both halves of a page with one entry too many are full enough. */
  lemma SplitSizes(c: Caps, p: Pages, g: Infos, root: PageId, x: PageId, key: Key, n: PageId, moved: seq<PageId>,
                   p2: Pages, slack: Slack)
    requires SplitStep(p, g, root, x, key, n, moved, p2) && CapsOk(c)
    requires p[x].Size() == MaxSize(c, p[x]) + 1
    requires p2[x].Size() == Cut(p[x].Size()) && p2[n].Size() == p[x].Size() / 2
    requires forall id {:trigger SizeOk(c, p, root, Exact, id)} :: id in g && id != x && id != p[x].parent ==>
        SizeOk(c, p, root, Exact, id)
    requires SizeOk(c, p2, root, slack, p[x].parent) && (slack == Exact || slack == Over(p[x].parent))
    ensures Sizes(c, p2, SplitInfo(g, x, key, n), root, slack)
  {
    hide SplitStep, Less, NodeOk;
    SplitStepSizes(p, g, root, x, key, n, moved, p2);
    forall id | id in SplitInfo(g, x, key, n)
      ensures SizeOk(c, p2, root, slack, id)
    {
      if id != x && id != n && id != p[x].parent {
        assert SizeOk(c, p, root, Exact, id);
      }
    }
  }

  lemma SplitSizesBelow(c: Caps, p: Pages, g: Infos, root: PageId, x: PageId, n: PageId)
    requires Inv(c, p, g, root, Over(x)) && x in g && x != root && n !in g && n != INVALID_PAGE_ID
    requires p[x].Shaped() && p[x].Size() == MaxSize(c, p[x]) + 1
    ensures var q := p[x].parent;
      && q in g && q != x && q != n && p[q].Internal? && p[q].Shaped()
      && Sizes(c, SplitLink(p, x, n), SplitInfo(g, x, SplitKey(p[x]), n), root, Over(q))
  {
    hide NodeOk, SplitPages;
    var q := p[x].parent;
    SplitLinkIsStep(p, g, root, x, n);
    SplitPagesAre(p, g, root, x, n);
    forall id | id in g && id != x
      ensures SizeOk(c, p, root, Exact, id)
    {
      assert SizeOk(c, p, root, Over(x), id);
    }
    assert SizeOk(c, p, root, Exact, q);
    SplitSizes(c, p, g, root, x, SplitKey(p[x]), n, Moved(p[x]), SplitLink(p, x, n), Over(q));
  }

  /** Below a parent: the split page and its new half can be linked. */
  lemma SplitLinkableBelow(c: Caps, p: Pages, g: Infos, root: PageId, x: PageId, n: PageId)
    requires Inv(c, p, g, root, Over(x)) && x in g && x != root && n !in g && n != INVALID_PAGE_ID
    requires p[x].Shaped() && p[x].Size() == MaxSize(c, p[x]) + 1
    ensures Linkable(c, SplitPages(p, x, n), SplitInfo(g, x, SplitKey(p[x]), n), root, x, SplitKey(p[x]), n)
  {
    hide NodeOk, SplitPages, InsertNodeAfter;
    SplitLinkIsStep(p, g, root, x, n);
    SplitSizesBelow(c, p, g, root, x, n);
    SplitLinkShape(p, g, root, x, n);
    SplitPagesAre(p, g, root, x, n);
    ParentBeside(p, g, root, x);
    ParentAbove(p, g, root, x);
  }

  /** Adding a root over the two halves, or linking them below a root added before the split. */
  lemma LinkBelowRoot(s: Pages, s0: Pages, x: PageId, key: Key, n: PageId, r: PageId)
    requires x in s && n in s && n != x && r !in s && s0.Keys == s.Keys + {r}
    requires s0[r] == Internal(INVALID_PAGE_ID, [0], [x]) && s0[x] == s[x].(parent := r) && s0[n] == s[n].(parent := r)
    requires forall id :: id in s && id != x && id != n ==> s0[id] == s[id]
    ensures LinkRoot(s, x, key, n, r) == Link(s0, x, key, n)
  {
    var a, b := LinkRoot(s, x, key, n, r), Link(s0, x, key, n);
    assert InsertNodeAfter(s0[r], x, key, n) == Internal(INVALID_PAGE_ID, [0, key], [x, n]);
    assert a.Keys == b.Keys;
    assert forall id :: id in a ==> a[id] == b[id];
  }

  /** Splitting the root and adding a root above it is adding a root first and splitting below it. */
  lemma LinkRootIsGrow(p: Pages, g: Infos, x: PageId, n: PageId, r: PageId)
    requires Shape(p, g, x) && p[x].Shaped() && p[x].Size() >= 2
    requires n !in p && n != INVALID_PAGE_ID && r !in p && r != n && r != INVALID_PAGE_ID
    ensures var p0 := Grow(p, x, r);
      LinkRoot(SplitPages(p, x, n), x, SplitKey(p[x]), n, r) == SplitLink(p0, x, n)
  {
    hide NodeOk, SplitPages, InsertNodeAfter;
    var p0 := Grow(p, x, r);
    GrowShape(p, g, x, r);
    SplitPagesAre(p, g, x, x, n);
    SplitPagesAre(p0, g[r := RootInfo(g[x].level + 1)], r, x, n);
    RootMoved(p, g, x, n, r);
    LinkBelowRoot(SplitPages(p, x, n), SplitPages(p0, x, n), x, SplitKey(p[x]), n, r);
  }

  /** The children that leave a split root do not include the root or the fresh pages. */
  lemma RootMoved(p: Pages, g: Infos, x: PageId, n: PageId, r: PageId)
    requires Shape(p, g, x) && p[x].Shaped() && n !in g && r !in p
    ensures x !in Moved(p[x]) && n !in Moved(p[x]) && r !in Moved(p[x])
  {
    assert NodeOk(p, g, x, x);
    assert forall k :: k in Moved(p[x]) ==> k in p[x].kids;
  }

  lemma SplitInfoBelow(g: Infos, x: PageId, key: Key, n: PageId, r: PageId, inf: Info)
    requires x in g && r != x && r != n
    ensures SplitInfo(g[r := inf], x, key, n) == SplitInfo(g, x, key, n)[r := inf]
  {
  }

  lemma GrownSizes(c: Caps, p: Pages, g: Infos, x: PageId, r: PageId)
    requires Inv(c, p, g, x, Over(x)) && x in g && r !in p
    ensures var p0 := Grow(p, x, r);
      forall id {:trigger SizeOk(c, p0, r, Exact, id)} :: id in g && id != x ==> SizeOk(c, p0, r, Exact, id)
  {
    var p0 := Grow(p, x, r);
    forall id {:trigger SizeOk(c, p0, r, Exact, id)} | id in g && id != x
      ensures SizeOk(c, p0, r, Exact, id)
    {
      assert SizeOk(c, p, x, Over(x), id);
    }
  }

  lemma SplitLinkableRoot(c: Caps, p: Pages, g: Infos, x: PageId, n: PageId)
    requires Inv(c, p, g, x, Over(x)) && n !in p && n != INVALID_PAGE_ID
    requires p[x].Shaped() && p[x].Size() == MaxSize(c, p[x]) + 1
    ensures Linkable(c, SplitPages(p, x, n), SplitInfo(g, x, SplitKey(p[x]), n), x, x, SplitKey(p[x]), n)
  {
    var s, key, g1 := SplitPages(p, x, n), SplitKey(p[x]), SplitInfo(g, x, SplitKey(p[x]), n);
    SplitPagesAre(p, g, x, x, n);
    assert NodeOk(p, g, x, x);
    forall r {:trigger LinkRoot(s, x, key, n, r)} | r !in s && r != INVALID_PAGE_ID
      ensures Inv(c, LinkRoot(s, x, key, n, r), g1[r := RootInfo(g1[x].level + 1)], r, Exact)
    {
      RootSplitInv(c, p, g, x, n, r);
    }
  }

  lemma RootSplitInv(c: Caps, p: Pages, g: Infos, x: PageId, n: PageId, r: PageId)
    requires Inv(c, p, g, x, Over(x)) && n !in p && n != INVALID_PAGE_ID
    requires p[x].Shaped() && p[x].Size() == MaxSize(c, p[x]) + 1
    requires r !in p && r != n && r != INVALID_PAGE_ID
    ensures Inv(c, LinkRoot(SplitPages(p, x, n), x, SplitKey(p[x]), n, r),
                SplitInfo(g, x, SplitKey(p[x]), n)[r := RootInfo(g[x].level + 1)], r, Exact)
  {
    hide NodeOk, SplitPages, InsertNodeAfter, SplitInfo;
    var p0, g0, key := Grow(p, x, r), g[r := RootInfo(g[x].level + 1)], SplitKey(p[x]);
    GrowShape(p, g, x, r);
    LinkRootIsGrow(p, g, x, n, r);
    SplitLinkIsStep(p0, g0, r, x, n);
    SplitLinkShape(p0, g0, r, x, n);
    SplitPagesAre(p0, g0, r, x, n);
    GrownSizes(c, p, g, x, r);
    SplitSizes(c, p0, g0, r, x, key, n, Moved(p0[x]), SplitLink(p0, x, n), Exact);
    SplitInfoBelow(g, x, key, n, r, RootInfo(g[x].level + 1));
  }
}

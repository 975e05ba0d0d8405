/** Borrowing between siblings, merging siblings and dropping a root keep the tree a tree. */
module TreeRebalance {
  import opened Types
  import opened Nodes
  import opened TreeInvariant

  /** Only the leaf just before `b` names `b` as its successor. */
  lemma OnlyPredecessor(p: Pages, g: Infos, root: PageId, q: PageId, j: nat, id: PageId)
    requires Shape(p, g, root) && q in g && p[q].Internal? && p[q].Shaped() && 1 <= j < p[q].Size()
    requires id in g && p[id].Leaf? && p[id].next == p[q].kids[j]
    ensures id == p[q].kids[j - 1]
  {
    var a, b := p[q].kids[j - 1], p[q].kids[j];
    assert NodeOk(p, g, root, q);
    assert g[a] == ChildInfo(g[q], p[q].keys, j - 1);
    assert g[b] == ChildInfo(g[q], p[q].keys, j);
    assert NodeOk(p, g, root, id);
    assert NodeOk(p, g, root, a);
    assert NodeOk(p, g, root, b);
    Unique(p, g, root, id, a, p[q].keys[j] - 1);
  }

  /** Adjacent leaves of one parent are adjacent in the leaf chain. */
  lemma NextSibling(p: Pages, g: Infos, root: PageId, q: PageId, j: nat)
    requires Shape(p, g, root) && q in g && p[q].Internal? && p[q].Shaped() && 1 <= j < p[q].Size()
    requires p[q].kids[j - 1] in g && p[p[q].kids[j - 1]].Leaf?
    ensures p[p[q].kids[j - 1]].next == p[q].kids[j]
  {
    var a, b := p[q].kids[j - 1], p[q].kids[j];
    assert NodeOk(p, g, root, q);
    assert g[a] == ChildInfo(g[q], p[q].keys, j - 1);
    assert g[b] == ChildInfo(g[q], p[q].keys, j);
    assert NodeOk(p, g, root, a);
    assert NodeOk(p, g, root, b);
    assert NodeOk(p, g, root, p[a].next);
    Unique(p, g, root, p[a].next, b, p[q].keys[j]);
  }

  lemma DistinctKids(p: Pages, g: Infos, root: PageId, q: PageId, i: nat, j: nat)
    requires Shape(p, g, root) && q in g && p[q].Internal? && i < |p[q].kids| && j < |p[q].kids|
    ensures p[q].kids[i] == p[q].kids[j] ==> i == j
    ensures p[q].kids[i] in g && p[q].kids[i] != q && p[q].kids[i] != root && p[p[q].kids[i]].parent == q
    ensures p[q].Shaped() && g[q].level > 0 && g[p[q].kids[i]] == ChildInfo(g[q], p[q].keys, i)
  {
    assert NodeOk(p, g, root, q);
    ChildIndex(p, g, root, q, i);
    ChildIndex(p, g, root, q, j);
    assert NodeOk(p, g, root, p[q].kids[i]);
  }

  // ---- borrowing: the boundary between two siblings moves ----

  function ShiftInfo(g: Infos, a: PageId, b: PageId, key: Key): Infos
    requires a in g && b in g
  {
    g[a := g[a].(hi := Fin(key))][b := g[b].(lo := Fin(key))]
  }

  /** Children of `q` at `j - 1` and `j` have been given new contents, divided at `key`. */
  ghost predicate ShiftStep(p: Pages, g: Infos, root: PageId, q: PageId, j: nat, key: Key, p2: Pages) {
    && Shape(p, g, root) && q in g && p[q].Internal? && p[q].Shaped() && 1 <= j < p[q].Size()
    && var a, b := p[q].kids[j - 1], p[q].kids[j];
    && a in g && b in g
    && Less(g[a].lo, Fin(key)) && Less(Fin(key), g[b].hi)
    && g.Keys <= p2.Keys
    && p2[q] == SetKeyAt(p[q], j, key)
    && p2[a].parent == q && p2[b].parent == q
    && (p2[a].Leaf? <==> p[a].Leaf?) && (p2[b].Leaf? <==> p[b].Leaf?)
    && forall id :: id in g && id != a && id != b && id != q ==>
         && p2[id] == p[id].(parent := p2[id].parent)
         && if p[id].parent == a || p[id].parent == b then
              && (p2[id].parent == a || p2[id].parent == b)
              && p2[p2[id].parent].Internal? && id in p2[p2[id].parent].kids
            else p2[id].parent == p[id].parent
  }

  lemma ShiftOther(p: Pages, g: Infos, root: PageId, q: PageId, j: nat, key: Key, p2: Pages, id: PageId)
    requires ShiftStep(p, g, root, q, j, key, p2)
    requires id in g && id != q && id != p[q].kids[j - 1] && id != p[q].kids[j]
    ensures NodeOk(p2, ShiftInfo(g, p[q].kids[j - 1], p[q].kids[j], key), root, id)
  {
    var a, b := p[q].kids[j - 1], p[q].kids[j];
    var g2 := ShiftInfo(g, a, b, key);
    assert NodeOk(p, g, root, id);
    assert NodeOk(p, g, root, q);
    ShiftParentOk(p, g, root, q, j, key, p2, id);
    if p[id].Leaf? {
      if p[id].next == b {
        OnlyPredecessor(p, g, root, q, j, id);
      }
      assert LeafOk(p2, g2, id);
    } else {
      assert InternalOk(p2, g2, id);
    }
  }

  lemma ShiftParentOk(p: Pages, g: Infos, root: PageId, q: PageId, j: nat, key: Key, p2: Pages, id: PageId)
    requires ShiftStep(p, g, root, q, j, key, p2)
    requires id in g && id != p[q].kids[j - 1] && id != p[q].kids[j]
    ensures ParentOk(p2, ShiftInfo(g, p[q].kids[j - 1], p[q].kids[j], key), root, id)
  {
    assert NodeOk(p, g, root, id);
    assert NodeOk(p, g, root, q);
    if id == root {
      assert p[id].parent == INVALID_PAGE_ID;
    } else {
      assert NodeOk(p, g, root, p[id].parent);
    }
  }

  /** Changing routing key `j` moves the boundary between children `j - 1` and `j` only. */
  lemma SetKey(inf: Info, keys: seq<Key>, j: nat, key: Key, i: nat)
    requires inf.level > 0 && 1 <= j < |keys| && i < |keys|
    ensures var c := ChildInfo(inf, keys, i);
      ChildInfo(inf, keys[j := key], i) ==
        if i == j - 1 then c.(hi := Fin(key)) else if i == j then c.(lo := Fin(key)) else c
  {
  }

  lemma SetRouting(inf: Info, keys: seq<Key>, j: nat, key: Key)
    requires inf.level > 0 && 1 <= j < |keys| && Routing(inf, keys) && Less(inf.lo, inf.hi)
    requires Less(ChildInfo(inf, keys, j - 1).lo, Fin(key)) && Less(Fin(key), ChildInfo(inf, keys, j).hi)
    ensures Routing(inf, keys[j := key])
  {
    var keys2 := keys[j := key];
    forall i | 1 <= i < |keys2|
      ensures Less(inf.lo, Fin(keys2[i])) && Less(Fin(keys2[i]), inf.hi)
      ensures i < j ==> keys2[i] == keys[i] < key
      ensures i == j ==> keys2[i] == key
      ensures i > j ==> keys2[i] == keys[i] > key
    {
    }
  }

  lemma ShiftParentKid(p: Pages, g: Infos, root: PageId, q: PageId, j: nat, key: Key, p2: Pages, i: nat)
    requires ShiftStep(p, g, root, q, j, key, p2) && i < |p[q].kids|
    ensures var g2, k := ShiftInfo(g, p[q].kids[j - 1], p[q].kids[j], key), p[q].kids[i];
      && g2[q].level > 0 && k in g2 && p2[k].parent == q && g2[k] == ChildInfo(g2[q], p2[q].keys, i)
  {
    assert NodeOk(p, g, root, q);
    SetKey(g[q], p[q].keys, j, key, i);
    DistinctKids(p, g, root, q, i, j);
    DistinctKids(p, g, root, q, i, j - 1);
    DistinctKids(p, g, root, q, j - 1, j);
  }

  lemma ShiftParent(p: Pages, g: Infos, root: PageId, q: PageId, j: nat, key: Key, p2: Pages)
    requires ShiftStep(p, g, root, q, j, key, p2)
    ensures NodeOk(p2, ShiftInfo(g, p[q].kids[j - 1], p[q].kids[j], key), root, q)
  {
    var a, b := p[q].kids[j - 1], p[q].kids[j];
    var g2 := ShiftInfo(g, a, b, key);
    assert NodeOk(p, g, root, q);
    ShiftParentOk(p, g, root, q, j, key, p2, q);
    SetRouting(g[q], p[q].keys, j, key);
    forall i | 0 <= i < |p2[q].kids|
      ensures p2[q].kids[i] in g2 && p2[p2[q].kids[i]].parent == q
      ensures g2[p2[q].kids[i]] == ChildInfo(g2[q], p2[q].keys, i)
    {
      ShiftParentKid(p, g, root, q, j, key, p2, i);
    }
    assert InternalOk(p2, g2, q);
  }

  lemma ShiftShape(p: Pages, g: Infos, root: PageId, q: PageId, j: nat, key: Key, p2: Pages)
    requires ShiftStep(p, g, root, q, j, key, p2)
    requires NodeOk(p2, ShiftInfo(g, p[q].kids[j - 1], p[q].kids[j], key), root, p[q].kids[j - 1])
    requires NodeOk(p2, ShiftInfo(g, p[q].kids[j - 1], p[q].kids[j], key), root, p[q].kids[j])
    ensures Shape(p2, ShiftInfo(g, p[q].kids[j - 1], p[q].kids[j], key), root)
  {
    var a, b := p[q].kids[j - 1], p[q].kids[j];
    var g2 := ShiftInfo(g, a, b, key);
    forall id | id in g2
      ensures NodeOk(p2, g2, root, id)
    {
      if id == q {
        ShiftParent(p, g, root, q, j, key, p2);
      } else if id != a && id != b {
        ShiftOther(p, g, root, q, j, key, p2, id);
      }
    }
  }

  // ---- merging: a page takes over its right sibling ----

  function MergeInfo(g: Infos, a: PageId, b: PageId): Infos
    requires a in g && b in g
  {
    g[a := g[a].(hi := g[b].hi)] - {b}
  }

  /** Child `j` of `q` has been emptied into child `j - 1` and is no longer listed. */
  ghost predicate MergeStep(p: Pages, g: Infos, root: PageId, q: PageId, j: nat, p2: Pages) {
    && Shape(p, g, root) && q in g && p[q].Internal? && p[q].Shaped() && 1 <= j < p[q].Size()
    && var a, b := p[q].kids[j - 1], p[q].kids[j];
    && a in g && b in g
    && g.Keys - {b} <= p2.Keys
    && a != b && a != q && b != q && b != root
    && p2[q] == InternalRemoveAt(p[q], j)
    && p2[a].parent == q
    && (p2[a].Leaf? <==> p[a].Leaf?)
    && forall id :: id in g && id != a && id != b && id != q ==>
         && p2[id] == p[id].(parent := if p[id].parent == b then a else p[id].parent)
         && (p[id].parent == a || p[id].parent == b ==> p2[a].Internal? && id in p2[a].kids)
  }

  lemma StaysListed(kids: seq<PageId>, j: nat, x: PageId)
    requires j < |kids| && x in kids && x != kids[j]
    ensures x in RemoveAt(kids, j)
  {
    var i :| 0 <= i < |kids| && kids[i] == x;
    assert RemoveAt(kids, j)[if i < j then i else i - 1] == x;
  }

  lemma MergeParentOk(p: Pages, g: Infos, root: PageId, q: PageId, j: nat, p2: Pages, id: PageId)
    requires MergeStep(p, g, root, q, j, p2)
    requires id in g && id != p[q].kids[j - 1] && id != p[q].kids[j]
    ensures ParentOk(p2, MergeInfo(g, p[q].kids[j - 1], p[q].kids[j]), root, id)
  {
    hide LeafOk;
    assert NodeOk(p, g, root, id);
    if id != root {
      assert NodeOk(p, g, root, p[id].parent);
      if p[id].parent == q {
        StaysListed(p[q].kids, j, id);
      } else if id == q {
        NotUnderChild(p, g, root, q, j);
        NotUnderChild(p, g, root, q, j - 1);
      }
    }
  }

  /** The parent of a page is not one of its children. */
  lemma NotUnderChild(p: Pages, g: Infos, root: PageId, q: PageId, j: nat)
    requires Shape(p, g, root) && q in g && p[q].Internal? && j < |p[q].kids| && q != root
    ensures p[q].parent != p[q].kids[j] && p[q].parent != q
  {
    DistinctKids(p, g, root, q, j, j);
    assert NodeOk(p, g, root, q);
    assert NodeOk(p, g, root, p[q].parent);
  }

  lemma MergeOther(p: Pages, g: Infos, root: PageId, q: PageId, j: nat, p2: Pages, id: PageId)
    requires MergeStep(p, g, root, q, j, p2)
    requires id in g && id != q && id != p[q].kids[j - 1] && id != p[q].kids[j]
    ensures NodeOk(p2, MergeInfo(g, p[q].kids[j - 1], p[q].kids[j]), root, id)
  {
    var a, b := p[q].kids[j - 1], p[q].kids[j];
    var g2 := MergeInfo(g, a, b);
    assert NodeOk(p, g, root, id);
    assert NodeOk(p, g, root, q);
    MergeParentOk(p, g, root, q, j, p2, id);
    if p[id].Leaf? {
      if p[id].next == b {
        OnlyPredecessor(p, g, root, q, j, id);
      }
      assert LeafOk(p2, g2, id);
    } else {
      assert InternalOk(p2, g2, id);
    }
  }

  /** Removing routing key `j` joins the ranges of children `j - 1` and `j`. */
  lemma RemoveKey(inf: Info, keys: seq<Key>, j: nat, i: nat)
    requires inf.level > 0 && 1 <= j < |keys| && i < |keys| - 1
    ensures ChildInfo(inf, RemoveAt(keys, j), i) ==
        if i < j - 1 then ChildInfo(inf, keys, i)
        else if i == j - 1 then ChildInfo(inf, keys, i).(hi := ChildInfo(inf, keys, j).hi)
        else ChildInfo(inf, keys, i + 1)
  {
    var keys2 := RemoveAt(keys, j);
    assert keys2[i] == if i < j then keys[i] else keys[i + 1];
    if i < |keys2| - 1 {
      assert keys2[i + 1] == if i + 1 < j then keys[i + 1] else keys[i + 2];
    }
  }

  lemma RemoveRouting(inf: Info, keys: seq<Key>, j: nat)
    requires 1 <= j < |keys| && Routing(inf, keys)
    ensures Routing(inf, RemoveAt(keys, j))
  {
    var keys2 := RemoveAt(keys, j);
    assert forall i :: 0 <= i < |keys2| ==> keys2[i] == if i < j then keys[i] else keys[i + 1];
  }

  lemma MergeParent(p: Pages, g: Infos, root: PageId, q: PageId, j: nat, p2: Pages)
    requires MergeStep(p, g, root, q, j, p2)
    ensures NodeOk(p2, MergeInfo(g, p[q].kids[j - 1], p[q].kids[j]), root, q)
  {
    var a, b := p[q].kids[j - 1], p[q].kids[j];
    var g2 := MergeInfo(g, a, b);
    assert NodeOk(p, g, root, q);
    MergeParentOk(p, g, root, q, j, p2, q);
    RemoveRouting(g[q], p[q].keys, j);
    forall i | 0 <= i < |p2[q].kids|
      ensures p2[q].kids[i] in g2 && p2[p2[q].kids[i]].parent == q
      ensures g2[p2[q].kids[i]] == ChildInfo(g2[q], p2[q].keys, i)
    {
      MergeParentKid(p, g, root, q, j, p2, i);
    }
    assert InternalOk(p2, g2, q);
  }

  lemma MergeParentKid(p: Pages, g: Infos, root: PageId, q: PageId, j: nat, p2: Pages, i: nat)
    requires MergeStep(p, g, root, q, j, p2) && i < |p[q].kids| - 1
    ensures var g2 := MergeInfo(g, p[q].kids[j - 1], p[q].kids[j]);
      && g[q].level > 0 && g2[q] == g[q] && p2[q].kids[i] in g2 && p2[p2[q].kids[i]].parent == q
      && g2[p2[q].kids[i]] == ChildInfo(g2[q], p2[q].keys, i)
  {
    var i0 := if i < j then i else i + 1;
    assert p2[q].kids[i] == p[q].kids[i0];
    DistinctKids(p, g, root, q, i0, j);
    DistinctKids(p, g, root, q, i0, j - 1);
    DistinctKids(p, g, root, q, j, j - 1);
    RemoveKey(g[q], p[q].keys, j, i);
  }

  lemma MergeShape(p: Pages, g: Infos, root: PageId, q: PageId, j: nat, p2: Pages)
    requires MergeStep(p, g, root, q, j, p2)
    requires NodeOk(p2, MergeInfo(g, p[q].kids[j - 1], p[q].kids[j]), root, p[q].kids[j - 1])
    ensures Shape(p2, MergeInfo(g, p[q].kids[j - 1], p[q].kids[j]), root)
  {
    var a, b := p[q].kids[j - 1], p[q].kids[j];
    var g2 := MergeInfo(g, a, b);
    forall id | id in g2
      ensures NodeOk(p2, g2, root, id)
    {
      if id == q {
        MergeParent(p, g, root, q, j, p2);
      } else if id != a && id != b {
        MergeOther(p, g, root, q, j, p2, id);
      }
    }
  }

  // ---- dropping the root ----

  /** The only child of an internal root becomes the root. */
  lemma CollapseShape(p: Pages, g: Infos, root: PageId, p2: Pages)
    requires Shape(p, g, root) && p[root].Internal? && p[root].Shaped() && p[root].Size() == 1
    requires p[root].kids[0] in p && p2.Keys >= p.Keys - {root}
    requires p[root].kids[0] in p2 && p2[p[root].kids[0]] == p[p[root].kids[0]].(parent := INVALID_PAGE_ID)
    requires forall id :: id in g && id != root && id != p[root].kids[0] ==> id in p2 && p2[id] == p[id]
    ensures Shape(p2, g - {root}, p[root].kids[0])
  {
    var r, g2 := p[root].kids[0], g - {root};
    assert NodeOk(p, g, root, root);
    assert g[r] == ChildInfo(g[root], p[root].keys, 0);
    assert NodeOk(p, g, root, r);
    forall id | id in g2
      ensures NodeOk(p2, g2, r, id)
    {
      assert NodeOk(p, g, root, id);
      if id != r {
        assert NodeOk(p, g, root, p[id].parent);
        assert ParentOk(p2, g2, r, id);
      }
      if p[id].Leaf? {
        assert LeafOk(p2, g2, id);
      } else {
        assert InternalOk(p2, g2, id);
      }
    }
  }
}

/** A page is emptied into its left sibling. */
module TreeMerge {
  import opened Types
  import opened Nodes
  import opened TreeInvariant
  import opened TreeRebalance
  import opened TreeBorrow
  import opened TreeSplit

  /** Child `j` of `q` is moved into child `j - 1`, children included, and unlisted. */
  function MergePages(p: Pages, q: PageId, j: nat, a: PageId, b: PageId): Pages
    requires q in p && p[q].Internal? && p[q].Shaped() && 1 <= j < p[q].Size()
    requires a in p && b in p && (p[a].Leaf? <==> p[b].Leaf?) && p[a].Shaped() && p[b].Shaped()
    requires p[b].Internal? ==> p[b].Size() > 0
  {
    if p[a].Leaf? then
      var (b2, a2) := LeafMoveAll(p[b], p[a]);
      p[a := a2][b := b2][q := InternalRemoveAt(p[q], j)]
    else
      var (b2, a2) := InternalMoveAll(p[b], p[a], p[q].keys[j]);
      Reparent(p[a := a2][b := b2], a2.kids, a)[q := InternalRemoveAt(p[q], j)]
  }

  lemma LeafMerge(p: Pages, g: Infos, root: PageId, q: PageId, j: nat, a: PageId, b: PageId)
    requires Siblings(p, g, root, q, j, a, b) && p[a].Leaf?
    ensures p[b].Leaf? && p[a].Shaped() && p[b].Shaped() && b != a && b != q && b != root
    ensures Shape(MergePages(p, q, j, a, b), MergeInfo(g, a, b), root)
  {
    SiblingFacts(p, g, root, q, j, a, b);
    var p2, g2 := MergePages(p, q, j, a, b), MergeInfo(g, a, b);
    LeafMergeStep(p, g, root, q, j, a, b);
    LeafMergeSorted(p, g, root, q, j, a, b);
    assert p[b].next != b by {
      assert g[b].hi != g[b].lo;
    }
    assert LeafOk(p2, g2, a);
    MergeShape(p, g, root, q, j, p2);
  }

  lemma LeafMergeStep(p: Pages, g: Infos, root: PageId, q: PageId, j: nat, a: PageId, b: PageId)
    requires Siblings(p, g, root, q, j, a, b) && p[a].Leaf? && p[b].Leaf? && p[a].Shaped() && p[b].Shaped()
    ensures MergeStep(p, g, root, q, j, MergePages(p, q, j, a, b))
    ensures a != b && ParentOk(MergePages(p, q, j, a, b), MergeInfo(g, a, b), root, a)
  {
    SiblingFacts(p, g, root, q, j, a, b);
    StaysListed(p[q].kids, j, a);
    forall id | id in g
      ensures p[id].parent != a && p[id].parent != b
    {
      assert NodeOk(p, g, root, id);
    }
  }

  lemma LeafMergeSorted(p: Pages, g: Infos, root: PageId, q: PageId, j: nat, a: PageId, b: PageId)
    requires Siblings(p, g, root, q, j, a, b) && p[a].Leaf? && p[b].Leaf?
    ensures Sorted(p[a].keys + p[b].keys)
    ensures forall i :: 0 <= i < |p[a].keys + p[b].keys| ==> InRange(g[a].(hi := g[b].hi), (p[a].keys + p[b].keys)[i])
  {
    SiblingFacts(p, g, root, q, j, a, b);
    var s := p[a].keys + p[b].keys;
    forall i | 0 <= i < |s|
      ensures InRange(g[a].(hi := g[b].hi), s[i])
      ensures i < |p[a].keys| ==> s[i] == p[a].keys[i] && s[i] < p[q].keys[j]
      ensures i >= |p[a].keys| ==> s[i] == p[b].keys[i - |p[a].keys|] && s[i] >= p[q].keys[j]
    {
      if i < |p[a].keys| {
        assert InRange(g[a], p[a].keys[i]);
      } else {
        assert InRange(g[b], p[b].keys[i - |p[a].keys|]);
      }
    }
  }

  // ---- internal pages ----

  lemma InternalMerge(p: Pages, g: Infos, root: PageId, q: PageId, j: nat, a: PageId, b: PageId)
    requires Siblings(p, g, root, q, j, a, b) && p[a].Internal?
    ensures p[b].Internal? && p[a].Shaped() && p[b].Shaped() && p[b].Size() > 0 && b != a && b != q && b != root
    ensures Shape(MergePages(p, q, j, a, b), MergeInfo(g, a, b), root)
  {
    SiblingFacts(p, g, root, q, j, a, b);
    var p2, g2 := MergePages(p, q, j, a, b), MergeInfo(g, a, b);
    InternalMergeStep(p, g, root, q, j, a, b);
    MergeRouting(g[a], p[a].keys, g[b], p[b].keys, p[q].keys[j]);
    forall i | 0 <= i < |p2[a].kids|
      ensures p2[a].kids[i] in g2 && p2[p2[a].kids[i]].parent == a
      ensures g2[p2[a].kids[i]] == ChildInfo(g2[a], p2[a].keys, i)
    {
      MergeKid(p, g, root, q, j, a, b, i);
    }
    assert InternalOk(p2, g2, a);
    MergeShape(p, g, root, q, j, p2);
  }

  lemma MergeRouting(ia: Info, keysA: seq<Key>, ib: Info, keysB: seq<Key>, separator: Key)
    requires Routing(ia, keysA) && Routing(ib, keysB) && |keysA| >= 1 && |keysB| >= 1
    requires ia.hi == ib.lo == Fin(separator) && Less(ia.lo, ia.hi) && Less(ib.lo, ib.hi)
    ensures Routing(ia.(hi := ib.hi), keysA + [separator] + keysB[1..])
  {
    var s := keysA + [separator] + keysB[1..];
    forall i | 1 <= i < |s|
      ensures Less(ia.lo, Fin(s[i])) && Less(Fin(s[i]), ib.hi)
      ensures i < |keysA| ==> s[i] == keysA[i] < separator
      ensures i == |keysA| ==> s[i] == separator
      ensures i > |keysA| ==> s[i] == keysB[i - |keysA|] > separator
    {
    }
  }

  /** What MergePages makes of each page. */
  lemma MergePagesAre(p: Pages, g: Infos, root: PageId, q: PageId, j: nat, a: PageId, b: PageId)
    requires Siblings(p, g, root, q, j, a, b) && p[a].Internal? && p[b].Internal?
    requires p[a].Shaped() && p[b].Shaped() && p[b].Size() > 0
    ensures var p2 := MergePages(p, q, j, a, b);
      && p2.Keys == p.Keys
      && p2[q] == InternalRemoveAt(p[q], j)
      && p2[a] == p[a].(keys := p[a].keys + [p[q].keys[j]] + p[b].keys[1..], kids := p[a].kids + p[b].kids)
      && forall id :: id in p && id != a && id != b && id != q ==>
           p2[id] == if id in p[a].kids + p[b].kids then p[id].(parent := a) else p[id]
  {
    SiblingFacts(p, g, root, q, j, a, b);
    assert a !in p[a].kids + p[b].kids;
  }

  lemma InternalMergeStep(p: Pages, g: Infos, root: PageId, q: PageId, j: nat, a: PageId, b: PageId)
    requires Siblings(p, g, root, q, j, a, b) && p[a].Internal? && p[b].Internal?
    requires p[a].Shaped() && p[b].Shaped() && p[b].Size() > 0
    ensures MergeStep(p, g, root, q, j, MergePages(p, q, j, a, b))
    ensures a != b && ParentOk(MergePages(p, q, j, a, b), MergeInfo(g, a, b), root, a)
  {
    SiblingFacts(p, g, root, q, j, a, b);
    MergePagesAre(p, g, root, q, j, a, b);
    StaysListed(p[q].kids, j, a);
    forall id | id in g
      ensures id in p[a].kids + p[b].kids <==> p[id].parent == a || p[id].parent == b
    {
      assert NodeOk(p, g, root, id);
    }
  }

  lemma MergeKid(p: Pages, g: Infos, root: PageId, q: PageId, j: nat, a: PageId, b: PageId, i: nat)
    requires Siblings(p, g, root, q, j, a, b) && p[a].Internal? && p[b].Internal?
    requires p[a].Shaped() && p[b].Shaped() && p[b].Size() > 0 && i < p[a].Size() + p[b].Size()
    ensures var p2, g2, k := MergePages(p, q, j, a, b), MergeInfo(g, a, b), (p[a].kids + p[b].kids)[i];
      && a in g2 && k in g2 && g2[a].level > 0 && k in p2 && p2[k].parent == a
      && g2[k] == ChildInfo(g2[a], p[a].keys + [p[q].keys[j]] + p[b].keys[1..], i)
  {
    var n, k := |p[a].kids|, (p[a].kids + p[b].kids)[i];
    SiblingFacts(p, g, root, q, j, a, b);
    MergePagesAre(p, g, root, q, j, a, b);
    assert k in p[a].kids + p[b].kids;
    if i < n {
      assert g[p[a].kids[i]] == ChildInfo(g[a], p[a].keys, i);
    } else {
      assert g[p[b].kids[i - n]] == ChildInfo(g[b], p[b].keys, i - n);
    }
  }
}

/** One underfull page borrows an entry from a sibling. */
module TreeBorrow {
  import opened Types
  import opened Nodes
  import opened TreeInvariant
  import opened TreeRebalance

  /** `q` lists `a` at `j - 1` and `b` at `j`, and both are pages of the same kind. */
  ghost predicate Siblings(p: Pages, g: Infos, root: PageId, q: PageId, j: nat, a: PageId, b: PageId) {
    && Shape(p, g, root) && q in g && p[q].Internal? && p[q].Shaped() && 1 <= j < p[q].Size()
    && a == p[q].kids[j - 1] && b == p[q].kids[j] && a in g && b in g
  }

  lemma SiblingFacts(p: Pages, g: Infos, root: PageId, q: PageId, j: nat, a: PageId, b: PageId)
    requires Siblings(p, g, root, q, j, a, b)
    ensures a in g && b in g && a != b && a != q && b != q && a != root && b != root
    ensures p[a].parent == q && p[b].parent == q
    ensures p[a].Shaped() && p[b].Shaped() && (p[a].Leaf? <==> p[b].Leaf?)
    ensures g[a].level == g[b].level == g[q].level - 1 && g[a].hi == g[b].lo == Fin(p[q].keys[j])
    ensures Less(g[a].lo, g[a].hi) && Less(g[b].lo, g[b].hi)
    ensures NodeOk(p, g, root, a) && NodeOk(p, g, root, b)
    ensures p[a].Leaf? ==> p[a].next == b
  {
    DistinctKids(p, g, root, q, j - 1, j);
    DistinctKids(p, g, root, q, j, j - 1);
    assert NodeOk(p, g, root, a);
    assert NodeOk(p, g, root, b);
    if p[a].Leaf? {
      NextSibling(p, g, root, q, j);
    }
  }

  /** Child `j` of `q` takes the last entry of its left sibling. */
  function BorrowLeft(p: Pages, q: PageId, j: nat, a: PageId, b: PageId): Pages
    requires q in p && p[q].Internal? && p[q].Shaped() && 1 <= j < p[q].Size()
    requires a in p && b in p && (p[a].Leaf? <==> p[b].Leaf?) && p[a].Shaped() && p[b].Shaped()
    requires p[a].Size() > 0 && (p[b].Internal? ==> p[b].Size() > 0 && p[a].kids[p[a].Size() - 1] in p)
  {
    var last := p[a].Size() - 1;
    if p[a].Leaf? then
      var (a2, b2) := LeafMoveLast(p[a], p[b]);
      p[a := a2][b := b2][q := SetKeyAt(p[q], j, b2.keys[0])]
    else
      var (a2, b2) := InternalMoveLast(p[a], p[b], p[q].keys[j]);
      var c := p[a].kids[last];
      p[a := a2][b := b2][q := SetKeyAt(p[q], j, p[a].keys[last])][c := p[c].(parent := b)]
  }

  lemma LeafBorrowLeft(p: Pages, g: Infos, root: PageId, q: PageId, j: nat, a: PageId, b: PageId)
    requires Siblings(p, g, root, q, j, a, b) && p[a].Leaf? && p[a].Size() >= 2
    ensures a in g && b in g && p[b].Leaf? && p[a].Shaped() && p[b].Shaped()
    ensures Shape(BorrowLeft(p, q, j, a, b), ShiftInfo(g, a, b, p[a].keys[p[a].Size() - 1]), root)
    ensures BorrowLeft(p, q, j, a, b)[b].keys == [p[a].keys[p[a].Size() - 1]] + p[b].keys
    ensures BorrowLeft(p, q, j, a, b)[b].vals == [p[a].vals[p[a].Size() - 1]] + p[b].vals
    ensures BorrowLeft(p, q, j, a, b)[a].keys == p[a].keys[..p[a].Size() - 1]
    ensures BorrowLeft(p, q, j, a, b)[a].vals == p[a].vals[..p[a].Size() - 1]
  {
    hide Routing;
    SiblingFacts(p, g, root, q, j, a, b);
    var last := p[a].Size() - 1;
    var key := p[a].keys[last];
    var p2, g2 := BorrowLeft(p, q, j, a, b), ShiftInfo(g, a, b, key);
    assert InRange(g[a], key) && InRange(g[a], p[a].keys[0]);
    forall i | 0 <= i < |p[b].keys|
      ensures key < p[b].keys[i]
    {
      assert InRange(g[b], p[b].keys[i]);
    }
    InsertInFront(p[b], key, p[a].vals[last]);
    assert LeafOk(p2, g2, a);
    assert LeafOk(p2, g2, b);
    LeafShiftStep(p, g, root, q, j, a, b, key, p2);
    ShiftShape(p, g, root, q, j, key, p2);
  }

  lemma LeafShiftStep(p: Pages, g: Infos, root: PageId, q: PageId, j: nat, a: PageId, b: PageId, key: Key, p2: Pages)
    requires Siblings(p, g, root, q, j, a, b) && a in g && b in g && p[a].Leaf? && p[b].Leaf?
    requires Less(g[a].lo, Fin(key)) && Less(Fin(key), g[b].hi)
    requires p2.Keys == p.Keys && p2[q] == SetKeyAt(p[q], j, key)
    requires p2[a].Leaf? && p2[b].Leaf? && p2[a].parent == p2[b].parent == q
    requires forall id :: id in p && id != a && id != b && id != q ==> p2[id] == p[id]
    ensures ShiftStep(p, g, root, q, j, key, p2)
    ensures ParentOk(p2, ShiftInfo(g, a, b, key), root, a)
    ensures ParentOk(p2, ShiftInfo(g, a, b, key), root, b)
  {
    SiblingFacts(p, g, root, q, j, a, b);
    forall id | id in g
      ensures p[id].parent != a && p[id].parent != b
    {
      assert NodeOk(p, g, root, id);
    }
  }

  /** Child `j - 1` of `q` takes the first entry of its right sibling. */
  function BorrowRight(p: Pages, q: PageId, j: nat, a: PageId, b: PageId): Pages
    requires q in p && p[q].Internal? && p[q].Shaped() && 1 <= j < p[q].Size()
    requires a in p && b in p && (p[a].Leaf? <==> p[b].Leaf?) && p[a].Shaped() && p[b].Shaped()
    requires p[b].Size() >= 2 && (p[b].Internal? ==> p[b].kids[0] in p)
  {
    if p[a].Leaf? then
      var (b2, a2) := LeafMoveFirst(p[b], p[a]);
      p[a := a2][b := b2][q := SetKeyAt(p[q], j, b2.keys[0])]
    else
      var (b2, a2) := InternalMoveFirst(p[b], p[a], p[q].keys[j]);
      var c := p[b].kids[0];
      p[a := a2][b := b2][q := SetKeyAt(p[q], j, p[b].keys[1])][c := p[c].(parent := a)]
  }

  /** What moving the first entry of the leaf `b` to `a` writes. */
  lemma LeafRightPages(p: Pages, q: PageId, j: nat, a: PageId, b: PageId)
    requires q in p && p[q].Internal? && p[q].Shaped() && 1 <= j < p[q].Size()
    requires a in p && b in p && p[a].Leaf? && p[b].Leaf? && p[a].Shaped() && p[b].Shaped() && p[b].Size() >= 2
    requires a != b && a != q && b != q && forall i :: 0 <= i < |p[a].keys| ==> p[a].keys[i] < p[b].keys[0]
    ensures var p2, n := BorrowRight(p, q, j, a, b), p[b];
      && p2.Keys == p.Keys && p2[q] == SetKeyAt(p[q], j, n.keys[1])
      && p2[a] == p[a].(keys := p[a].keys + [n.keys[0]], vals := p[a].vals + [n.vals[0]])
      && p2[b] == n.(keys := n.keys[1..], vals := n.vals[1..])
      && forall id :: id in p && id != a && id != b && id != q ==> p2[id] == p[id]
  {
    InsertAtEnd(p[a], p[b].keys[0], p[b].vals[0]);
  }

  lemma LeafBorrowRight(p: Pages, g: Infos, root: PageId, q: PageId, j: nat, a: PageId, b: PageId)
    requires Siblings(p, g, root, q, j, a, b) && p[a].Leaf? && p[b].Size() >= 2
    ensures p[b].Leaf? && p[a].Shaped() && p[b].Shaped()
    ensures Shape(BorrowRight(p, q, j, a, b), ShiftInfo(g, a, b, p[b].keys[1]), root)
    ensures BorrowRight(p, q, j, a, b)[a].keys == p[a].keys + [p[b].keys[0]]
    ensures BorrowRight(p, q, j, a, b)[a].vals == p[a].vals + [p[b].vals[0]]
    ensures BorrowRight(p, q, j, a, b)[b].keys == p[b].keys[1..]
    ensures BorrowRight(p, q, j, a, b)[b].vals == p[b].vals[1..]
  {
    hide BorrowRight, InternalOk;
    SiblingFacts(p, g, root, q, j, a, b);
    var key := p[b].keys[1];
    var p2, g2 := BorrowRight(p, q, j, a, b), ShiftInfo(g, a, b, key);
    assert InRange(g[b], key) && InRange(g[b], p[b].keys[0]);
    forall i | 0 <= i < |p[a].keys|
      ensures p[a].keys[i] < p[b].keys[0]
    {
      assert InRange(g[a], p[a].keys[i]);
    }
    LeafRightPages(p, q, j, a, b);
    assert LeafOk(p2, g2, a);
    assert LeafOk(p2, g2, b);
    LeafShiftStep(p, g, root, q, j, a, b, key, p2);
    ShiftShape(p, g, root, q, j, key, p2);
  }

  // ---- internal pages: the separator comes down, a routing key goes up, one child moves ----

  lemma InternalShiftStep(p: Pages, g: Infos, root: PageId, q: PageId, j: nat, a: PageId, b: PageId, key: Key,
                          c: PageId, p2: Pages)
    requires Siblings(p, g, root, q, j, a, b) && p[a].Internal? && p[b].Internal?
    requires Less(g[a].lo, Fin(key)) && Less(Fin(key), g[b].hi)
    requires p2.Keys == p.Keys && p2[q] == SetKeyAt(p[q], j, key)
    requires p2[a].Internal? && p2[b].Internal? && p2[a].parent == p2[b].parent == q
    requires c in p && (p2[c].parent == a || p2[c].parent == b) && c in p2[p2[c].parent].kids
    requires p2[c] == p[c].(parent := p2[c].parent)
    requires forall id :: id in p && id != a && id != b && id != q && id != c ==> p2[id] == p[id]
    requires forall k :: k in p[a].kids && k != c ==> k in p2[a].kids
    requires forall k :: k in p[b].kids && k != c ==> k in p2[b].kids
    requires c in p[a].kids || c in p[b].kids
    ensures ShiftStep(p, g, root, q, j, key, p2)
    ensures ParentOk(p2, ShiftInfo(g, a, b, key), root, a)
    ensures ParentOk(p2, ShiftInfo(g, a, b, key), root, b)
  {
    SiblingFacts(p, g, root, q, j, a, b);
    assert c in g && (p[c].parent == a || p[c].parent == b);
    forall id | id in g && id != root
      ensures p[id].parent == a ==> id in p[a].kids
      ensures p[id].parent == b ==> id in p[b].kids
    {
      assert NodeOk(p, g, root, id);
    }
    assert NodeOk(p, g, root, root);
  }

  lemma BorrowLeftKid(p: Pages, g: Infos, root: PageId, q: PageId, j: nat, a: PageId, b: PageId)
    requires Siblings(p, g, root, q, j, a, b) && p[a].Internal? && p[a].Size() >= 2 && p[b].Size() >= 1
    ensures p[a].Shaped() && p[b].Internal? && p[b].Shaped()
    ensures var last := p[a].Size() - 1; var c := p[a].kids[last]; var key := p[a].keys[last];
      && c in g && c != a && c != b && c != q && c !in p[b].kids && c !in p[a].kids[..last]
      && Less(g[a].lo, Fin(key)) && Less(Fin(key), g[b].hi)
      && g[a].level > 0 && g[c] == Info(g[a].level - 1, Fin(key), g[b].lo)
  {
    var last := p[a].Size() - 1;
    SiblingFacts(p, g, root, q, j, a, b);
    assert NodeOk(p, g, root, p[a].kids[last]);
    forall i | 0 <= i < last
      ensures p[a].kids[i] != p[a].kids[last]
    {
      DistinctKids(p, g, root, a, i, last);
    }
    assert g[p[a].kids[last]] == ChildInfo(g[a], p[a].keys, last);
  }

  lemma ButLast(s: seq<PageId>)
    requires s != []
    ensures forall x :: x in s && x != s[|s| - 1] ==> x in s[..|s| - 1]
  {
    assert s == s[..|s| - 1] + [s[|s| - 1]];
  }

  /** What moving the last child of `a` to `b` writes. */
  lemma BorrowLeftPages(p: Pages, q: PageId, j: nat, a: PageId, b: PageId, c: PageId)
    requires q in p && p[q].Internal? && p[q].Shaped() && 1 <= j < p[q].Size()
    requires a in p && b in p && p[a].Internal? && p[b].Internal? && p[a].Shaped() && p[b].Shaped()
    requires p[a].Size() > 0 && p[b].Size() > 0 && c == p[a].kids[p[a].Size() - 1] && c in p
    requires a != b && a != q && b != q && c != a && c != b && c != q
    ensures var p2, last := BorrowLeft(p, q, j, a, b), p[a].Size() - 1;
      && p2.Keys == p.Keys && p2[q] == SetKeyAt(p[q], j, p[a].keys[last]) && p2[c] == p[c].(parent := b)
      && p2[a] == p[a].(keys := p[a].keys[..last], kids := p[a].kids[..last])
      && p2[b] == p[b].(keys := [p[b].keys[0], p[q].keys[j]] + p[b].keys[1..], kids := [c] + p[b].kids)
      && forall id :: id in p && id != a && id != b && id != q && id != c ==> p2[id] == p[id]
  {
  }

  lemma InternalBorrowLeft(p: Pages, g: Infos, root: PageId, q: PageId, j: nat, a: PageId, b: PageId)
    requires Siblings(p, g, root, q, j, a, b) && p[a].Internal? && p[a].Size() >= 2 && p[b].Size() >= 1
    ensures p[a].Shaped() && p[b].Internal? && p[b].Shaped() && p[a].kids[p[a].Size() - 1] in p
    ensures Shape(BorrowLeft(p, q, j, a, b), ShiftInfo(g, a, b, p[a].keys[p[a].Size() - 1]), root)
  {
    hide BorrowLeft;
    SiblingFacts(p, g, root, q, j, a, b);
    BorrowLeftKid(p, g, root, q, j, a, b);
    var last := p[a].Size() - 1;
    var key, c := p[a].keys[last], p[a].kids[last];
    BorrowLeftPages(p, q, j, a, b, c);
    var p2 := BorrowLeft(p, q, j, a, b);
    ButLast(p[a].kids);
    BorrowLeftLower(p, g, root, q, j, a, b, p2);
    BorrowLeftUpper(p, g, root, q, j, a, b, p2);
    InternalShiftStep(p, g, root, q, j, a, b, key, c, p2);
    ShiftShape(p, g, root, q, j, key, p2);
  }

  lemma BorrowLeftLower(p: Pages, g: Infos, root: PageId, q: PageId, j: nat, a: PageId, b: PageId, p2: Pages)
    requires Siblings(p, g, root, q, j, a, b) && p[a].Internal? && p[a].Size() >= 2
    requires p[a].Shaped()
    requires g.Keys <= p2.Keys
    requires p2[a] == p[a].(keys := p[a].keys[..p[a].Size() - 1], kids := p[a].kids[..p[a].Size() - 1])
    requires forall id :: id in g && id in p[a].kids[..p[a].Size() - 1] ==> p2[id] == p[id]
    ensures InternalOk(p2, ShiftInfo(g, a, b, p[a].keys[p[a].Size() - 1]), a)
    ensures Less(g[a].lo, Fin(p[a].keys[p[a].Size() - 1]))
  {
    var last := p[a].Size() - 1;
    var g2 := ShiftInfo(g, a, b, p[a].keys[last]);
    SiblingFacts(p, g, root, q, j, a, b);
    forall i | 0 <= i < last
      ensures p2[a].kids[i] in g2 && p2[p2[a].kids[i]].parent == a
      ensures g2[p2[a].kids[i]] == ChildInfo(g2[a], p2[a].keys, i)
    {
      assert p2[a].kids[i] == p[a].kids[i];
      assert p[a].kids[i] in p[a].kids[..last];
      assert g[p[a].kids[i]] == ChildInfo(g[a], p[a].keys, i);
    }
  }

  lemma BorrowLeftUpper(p: Pages, g: Infos, root: PageId, q: PageId, j: nat, a: PageId, b: PageId, p2: Pages)
    requires Siblings(p, g, root, q, j, a, b) && p[a].Internal? && p[a].Size() >= 2 && p[b].Size() >= 1
    requires p[a].Shaped() && p[b].Internal? && p[b].Shaped() && g.Keys <= p2.Keys
    requires var last := p[a].Size() - 1;
      && p2[b] == p[b].(keys := [p[b].keys[0], p[q].keys[j]] + p[b].keys[1..], kids := [p[a].kids[last]] + p[b].kids)
      && p[a].kids[last] in p2 && p2[p[a].kids[last]].parent == b
    requires forall id :: id in g && id in p[b].kids ==> p2[id] == p[id]
    ensures InternalOk(p2, ShiftInfo(g, a, b, p[a].keys[p[a].Size() - 1]), b)
  {
    var last := p[a].Size() - 1;
    var key := p[a].keys[last];
    var g2 := ShiftInfo(g, a, b, key);
    SiblingFacts(p, g, root, q, j, a, b);
    BorrowLeftKid(p, g, root, q, j, a, b);
    forall i | 0 <= i < |p2[b].kids|
      ensures p2[b].kids[i] in g2 && p2[p2[b].kids[i]].parent == b
      ensures g2[p2[b].kids[i]] == ChildInfo(g2[b], p2[b].keys, i)
    {
      if i > 0 {
        assert p2[b].kids[i] == p[b].kids[i - 1];
        assert g[p[b].kids[i - 1]] == ChildInfo(g[b], p[b].keys, i - 1);
      }
    }
    BorrowLeftRouting(g[b], p[b].keys, key, p[q].keys[j]);
  }

  lemma BorrowLeftRouting(inf: Info, keys: seq<Key>, key: Key, separator: Key)
    requires |keys| >= 1 && Routing(inf, keys) && inf.lo == Fin(separator) && key < separator && Less(inf.lo, inf.hi)
    ensures Routing(inf.(lo := Fin(key)), [keys[0], separator] + keys[1..])
  {
    var keys2 := [keys[0], separator] + keys[1..];
    assert forall i :: 2 <= i < |keys2| ==> keys2[i] == keys[i - 1];
  }

  // ---- the mirror image ----

  lemma BorrowRightKid(p: Pages, g: Infos, root: PageId, q: PageId, j: nat, a: PageId, b: PageId)
    requires Siblings(p, g, root, q, j, a, b) && p[b].Internal? && p[b].Size() >= 2
    ensures p[b].Shaped() && p[a].Internal? && p[a].Shaped()
    ensures var c := p[b].kids[0]; var key := p[b].keys[1];
      && c in g && c != a && c != b && c != q && c !in p[a].kids && c !in p[b].kids[1..]
      && Less(g[a].lo, Fin(key)) && Less(Fin(key), g[b].hi) && p[q].keys[j] < key
      && g[b].level > 0 && g[c] == Info(g[b].level - 1, g[b].lo, Fin(key))
  {
    SiblingFacts(p, g, root, q, j, a, b);
    assert NodeOk(p, g, root, p[b].kids[0]);
    forall i | 0 < i < p[b].Size()
      ensures p[b].kids[i] != p[b].kids[0]
    {
      DistinctKids(p, g, root, b, i, 0);
    }
    assert g[p[b].kids[0]] == ChildInfo(g[b], p[b].keys, 0);
  }

  lemma InternalBorrowRight(p: Pages, g: Infos, root: PageId, q: PageId, j: nat, a: PageId, b: PageId)
    requires Siblings(p, g, root, q, j, a, b) && p[b].Internal? && p[b].Size() >= 2
    ensures p[b].Shaped() && p[a].Internal? && p[a].Shaped() && p[b].kids[0] in p
    ensures Shape(BorrowRight(p, q, j, a, b), ShiftInfo(g, a, b, p[b].keys[1]), root)
  {
    SiblingFacts(p, g, root, q, j, a, b);
    BorrowRightKid(p, g, root, q, j, a, b);
    var key, c := p[b].keys[1], p[b].kids[0];
    var p2 := BorrowRight(p, q, j, a, b);
    BorrowRightLower(p, g, root, q, j, a, b, p2);
    BorrowRightUpper(p, g, root, q, j, a, b, p2);
    assert c == p2[a].kids[|p[a].kids|];
    forall k | k in p[b].kids && k != c
      ensures k in p2[b].kids
    {
      var i :| 0 <= i < |p[b].kids| && p[b].kids[i] == k;
      assert p2[b].kids[i - 1] == k;
    }
    InternalShiftStep(p, g, root, q, j, a, b, key, c, p2);
    ShiftShape(p, g, root, q, j, key, p2);
  }

  lemma BorrowRightLower(p: Pages, g: Infos, root: PageId, q: PageId, j: nat, a: PageId, b: PageId, p2: Pages)
    requires Siblings(p, g, root, q, j, a, b) && p[b].Internal? && p[b].Size() >= 2
    requires p[b].Shaped() && p[a].Internal? && p[a].Shaped() && g.Keys <= p2.Keys
    requires p2[a] == p[a].(keys := p[a].keys + [p[q].keys[j]], kids := p[a].kids + [p[b].kids[0]])
    requires p[b].kids[0] in p2 && p2[p[b].kids[0]].parent == a
    requires forall id :: id in g && id in p[a].kids ==> p2[id] == p[id]
    ensures InternalOk(p2, ShiftInfo(g, a, b, p[b].keys[1]), a)
  {
    var g2 := ShiftInfo(g, a, b, p[b].keys[1]);
    SiblingFacts(p, g, root, q, j, a, b);
    BorrowRightKid(p, g, root, q, j, a, b);
    forall i | 0 <= i < |p2[a].kids|
      ensures p2[a].kids[i] in g2 && p2[p2[a].kids[i]].parent == a
      ensures g2[p2[a].kids[i]] == ChildInfo(g2[a], p2[a].keys, i)
    {
      if i < |p[a].kids| {
        assert p2[a].kids[i] == p[a].kids[i];
        assert g[p[a].kids[i]] == ChildInfo(g[a], p[a].keys, i);
      }
    }
  }

  lemma BorrowRightUpper(p: Pages, g: Infos, root: PageId, q: PageId, j: nat, a: PageId, b: PageId, p2: Pages)
    requires Siblings(p, g, root, q, j, a, b) && p[b].Internal? && p[b].Size() >= 2
    requires p[b].Shaped() && g.Keys <= p2.Keys
    requires p2[b] == p[b].(keys := p[b].keys[1..], kids := p[b].kids[1..])
    requires forall id :: id in g && id in p[b].kids[1..] ==> p2[id] == p[id]
    ensures InternalOk(p2, ShiftInfo(g, a, b, p[b].keys[1]), b)
  {
    var g2 := ShiftInfo(g, a, b, p[b].keys[1]);
    SiblingFacts(p, g, root, q, j, a, b);
    forall i | 0 <= i < |p2[b].kids|
      ensures p2[b].kids[i] in g2 && p2[p2[b].kids[i]].parent == b
      ensures g2[p2[b].kids[i]] == ChildInfo(g2[b], p2[b].keys, i)
    {
      assert p2[b].kids[i] == p[b].kids[i + 1];
      assert p[b].kids[i + 1] in p[b].kids[1..];
      assert g[p[b].kids[i + 1]] == ChildInfo(g[b], p[b].keys, i + 1);
    }
  }

  // ---- which entry moves ----

  /** The page `id` has more than the minimum. */
  predicate Spare(c: Caps, p: Pages, id: PageId) {
    id in p && p[id].Size() > MaxSize(c, p[id]) / 2
  }

  /** A sibling of child `idx` of `q` can spare an entry. */
  predicate Borrows(c: Caps, p: Pages, q: PageId, idx: nat)
    requires q in p && p[q].Internal? && idx < |p[q].kids|
  {
    || (idx > 0 && Spare(c, p, p[q].kids[idx - 1]))
    || (idx < |p[q].kids| - 1 && Spare(c, p, p[q].kids[idx + 1]))
  }

  /**
   The last entry of `a` is now the first one of `b`, and its key separates them in `q`. Between internal pages
   that is a child, which follows its new parent, and the old separator comes down in front of the others.
   */
  ghost predicate LastMoves(p: Pages, q: PageId, j: nat, a: PageId, b: PageId, p2: Pages) {
    && q in p && a in p && b in p && p2.Keys == p.Keys && j < |p[q].keys| && |p[a].keys| > 0
    && var key := p[a].keys[|p[a].keys| - 1];
    && p2[q] == SetKeyIn(p[q], j, key)
    && p2[a].keys == p[a].keys[..|p[a].keys| - 1]
    && if p[a].Leaf? then
         && p[b].Leaf? && p2[a].Leaf? && p2[b].Leaf? && |p[a].vals| == |p[a].keys|
         && p2[a].vals == p[a].vals[..|p[a].vals| - 1]
         && p2[b].keys == [key] + p[b].keys && p2[b].vals == [p[a].vals[|p[a].vals| - 1]] + p[b].vals
       else
         && p[b].Internal? && p2[a].Internal? && p2[b].Internal? && |p[a].kids| == |p[a].keys| && |p[b].keys| > 0
         && p2[a].kids == p[a].kids[..|p[a].kids| - 1]
         && p2[b].kids == [p[a].kids[|p[a].kids| - 1]] + p[b].kids
         && p2[b].keys == [p[b].keys[0], p[q].keys[j]] + p[b].keys[1..]
         && p2[b].kids[0] in p2 && p2[p2[b].kids[0]].parent == b
  }

  /** The mirror image: the first entry of `b` is now the last one of `a`. */
  ghost predicate FirstMoves(p: Pages, q: PageId, j: nat, a: PageId, b: PageId, p2: Pages) {
    && q in p && a in p && b in p && p2.Keys == p.Keys && j < |p[q].keys| && |p[b].keys| > 1
    && p2[q] == SetKeyIn(p[q], j, p[b].keys[1])
    && p2[b].keys == p[b].keys[1..]
    && if p[b].Leaf? then
         && p[a].Leaf? && p2[a].Leaf? && p2[b].Leaf? && |p[b].vals| == |p[b].keys|
         && p2[b].vals == p[b].vals[1..]
         && p2[a].keys == p[a].keys + [p[b].keys[0]] && p2[a].vals == p[a].vals + [p[b].vals[0]]
       else
         && p[a].Internal? && p2[a].Internal? && p2[b].Internal? && |p[b].kids| == |p[b].keys|
         && p2[b].kids == p[b].kids[1..]
         && p2[a].kids == p[a].kids + [p[b].kids[0]] && p2[a].keys == p[a].keys + [p[q].keys[j]]
         && p[b].kids[0] in p2 && p2[p[b].kids[0]].parent == a
  }

  /** The page with another key at `j`. */
  function SetKeyIn(n: Node, j: nat, key: Key): Node
    requires j < |n.keys|
  {
    n.(keys := n.keys[j := key])
  }

  lemma BorrowLeftMoves(p: Pages, g: Infos, root: PageId, q: PageId, j: nat, a: PageId, b: PageId)
    requires Siblings(p, g, root, q, j, a, b) && p[a].Size() >= 2
    requires p[a].Shaped() && p[b].Shaped() && (p[a].Leaf? <==> p[b].Leaf?)
    requires p[b].Internal? ==> p[b].Size() > 0 && p[a].kids[p[a].Size() - 1] in p
    ensures LastMoves(p, q, j, a, b, BorrowLeft(p, q, j, a, b))
  {
    hide NodeOk;
    SiblingFacts(p, g, root, q, j, a, b);
    if p[a].Leaf? {
      LeafBorrowLeft(p, g, root, q, j, a, b);
    } else {
      BorrowLeftKid(p, g, root, q, j, a, b);
    }
  }

  lemma BorrowRightMoves(p: Pages, g: Infos, root: PageId, q: PageId, j: nat, a: PageId, b: PageId)
    requires Siblings(p, g, root, q, j, a, b) && p[b].Size() >= 2
    requires p[a].Shaped() && p[b].Shaped() && (p[a].Leaf? <==> p[b].Leaf?)
    requires p[b].Internal? ==> p[b].kids[0] in p
    ensures FirstMoves(p, q, j, a, b, BorrowRight(p, q, j, a, b))
  {
    hide NodeOk;
    SiblingFacts(p, g, root, q, j, a, b);
    if p[a].Leaf? {
      LeafBorrowRight(p, g, root, q, j, a, b);
    } else {
      BorrowRightKid(p, g, root, q, j, a, b);
    }
  }
}

/**
 When a set of pages is a B+ tree. Every condition is about one page and its neighbours,
 against a ghost record of the level and the key range of each page of the tree.
 */
module TreeInvariant {
  import opened Types
  import opened Nodes

  datatype Bound = NegInf | Fin(k: Key) | PosInf

  predicate Above(lo: Bound, k: Key) {
    match lo
    case NegInf => true
    case Fin(b) => b <= k
    case PosInf => false
  }

  predicate Below(k: Key, hi: Bound) {
    match hi
    case NegInf => false
    case Fin(b) => k < b
    case PosInf => true
  }

  /** A half-open range with at least one key. */
  predicate Less(lo: Bound, hi: Bound) {
    match (lo, hi)
    case (NegInf, NegInf) => false
    case (NegInf, _) => true
    case (Fin(a), Fin(b)) => a < b
    case (Fin(_), PosInf) => true
    case (_, _) => false
  }

  /** Leaves are at level 0; keys of the subtree lie in [lo, hi). */
  datatype Info = Info(level: nat, lo: Bound, hi: Bound)

  predicate InRange(i: Info, k: Key) {
    Above(i.lo, k) && Below(k, i.hi)
  }

  type Pages = map<PageId, Node>
  type Infos = map<PageId, Info>

  /** What the i-th child of a page with record `inf` and routing keys `keys` must be. */
  function ChildInfo(inf: Info, keys: seq<Key>, i: nat): Info
    requires i < |keys| && inf.level > 0
  {
    Info(inf.level - 1,
         if i == 0 then inf.lo else Fin(keys[i]),
         if i == |keys| - 1 then inf.hi else Fin(keys[i + 1]))
  }

  ghost predicate ParentOk(p: Pages, g: Infos, root: PageId, id: PageId)
    requires id in g && root in g && g.Keys <= p.Keys
  {
    if id == root then
      p[id].parent == INVALID_PAGE_ID && g[id].lo == NegInf && g[id].hi == PosInf
    else
      && g[id].level < g[root].level
      && p[id].parent in g
      && p[p[id].parent].Internal?
      && id in p[p[id].parent].kids
  }

  ghost predicate LeafOk(p: Pages, g: Infos, id: PageId)
    requires id in g && g.Keys <= p.Keys && p[id].Leaf?
  {
    var n := p[id];
    && g[id].level == 0
    && n.Shaped()
    && Sorted(n.keys)
    && (forall i :: 0 <= i < |n.keys| ==> InRange(g[id], n.keys[i]))
    && (if g[id].hi == PosInf then n.next == INVALID_PAGE_ID
        else n.next in g && p[n.next].Leaf? && g[n.next].lo == g[id].hi)
  }

  /** Routing keys (all but the first) are increasing and strictly inside the range. */
  predicate Routing(inf: Info, keys: seq<Key>) {
    && (forall i, j :: 1 <= i < j < |keys| ==> keys[i] < keys[j])
    && (forall i :: 1 <= i < |keys| ==> Less(inf.lo, Fin(keys[i])) && Less(Fin(keys[i]), inf.hi))
  }

  ghost predicate InternalOk(p: Pages, g: Infos, id: PageId)
    requires id in g && g.Keys <= p.Keys && p[id].Internal?
  {
    var n := p[id];
    && g[id].level > 0
    && n.Shaped()
    && n.Size() >= 1
    && Routing(g[id], n.keys)
    && (forall i :: 0 <= i < |n.kids| ==>
          && n.kids[i] in g
          && p[n.kids[i]].parent == id
          && g[n.kids[i]] == ChildInfo(g[id], n.keys, i))
  }

  ghost predicate NodeOk(p: Pages, g: Infos, root: PageId, id: PageId)
    requires id in g && root in g && g.Keys <= p.Keys
  {
    && Less(g[id].lo, g[id].hi)
    && ParentOk(p, g, root, id)
    && (if p[id].Leaf? then LeafOk(p, g, id) else InternalOk(p, g, id))
  }

  /** The shape of the tree, whatever the number of entries per page. */
  ghost predicate Shape(p: Pages, g: Infos, root: PageId) {
    && root in g
    && INVALID_PAGE_ID !in g
    && g.Keys <= p.Keys
    && (forall id {:trigger NodeOk(p, g, root, id)} :: id in g ==> NodeOk(p, g, root, id))
  }

  // ---- how full pages are ----

  datatype Caps = Caps(leafMax: nat, internalMax: nat)

  predicate CapsOk(c: Caps) {
    c.leafMax >= 2 && c.internalMax >= 4
  }

  function MaxSize(c: Caps, n: Node): nat {
    if n.Leaf? then c.leafMax else c.internalMax
  }

  function MinSize(c: Caps, n: Node, isRoot: bool): nat {
    if isRoot then (if n.Leaf? then 1 else 2) else MaxSize(c, n) / 2
  }

  /** At most one page may be one entry too full, or one entry too empty. */
  datatype Slack = Exact | Over(over: PageId) | Under(under: PageId)

  ghost predicate SizeOk(c: Caps, p: Pages, root: PageId, slack: Slack, id: PageId)
    requires id in p
  {
    && MinSize(c, p[id], id == root) <= p[id].Size() + (if slack == Under(id) then 1 else 0)
    && p[id].Size() <= MaxSize(c, p[id]) + (if slack == Over(id) then 1 else 0)
  }

  ghost predicate Sizes(c: Caps, p: Pages, g: Infos, root: PageId, slack: Slack)
    requires g.Keys <= p.Keys
  {
    forall id {:trigger SizeOk(c, p, root, slack, id)} :: id in g ==> SizeOk(c, p, root, slack, id)
  }

  ghost predicate Inv(c: Caps, p: Pages, g: Infos, root: PageId, slack: Slack) {
    CapsOk(c) && Shape(p, g, root) && Sizes(c, p, g, root, slack)
  }

  // ---- what the tree stores ----

  /** The leaf `n` has the pair (k, v). */
  ghost predicate Has(n: Node, k: Key, v: RID) {
    n.Leaf? && n.Shaped() && exists i :: 0 <= i < |n.keys| && n.keys[i] == k && n.vals[i] == v
  }

  /** Some leaf of the tree has the pair (k, v). */
  ghost predicate Holds(p: Pages, g: Infos, k: Key, v: RID)
    requires g.Keys <= p.Keys
  {
    exists id :: id in g && Has(p[id], k, v)
  }

  /** The map `m` is exactly the pairs found in the leaves. */
  ghost predicate Stores(p: Pages, g: Infos, m: map<Key, RID>)
    requires g.Keys <= p.Keys
  {
    forall k, v :: Holds(p, g, k, v) <==> k in m && m[k] == v
  }

  /** Pages that are not part of the tree before are untouched, and not part of it after. */
  ghost predicate Apart(p: Pages, g: Infos, p2: Pages, g2: Infos) {
    forall id :: id in p && id !in g ==> id in p2 && p2[id] == p[id] && id !in g2
  }

  // ---- consequences ----

  /** The range of a child lies inside the range of its parent. */
  lemma ChildRange(p: Pages, g: Infos, root: PageId, id: PageId, k: Key)
    requires Shape(p, g, root) && id in g && id != root && InRange(g[id], k)
    ensures p[id].parent in g
    ensures InRange(g[p[id].parent], k) && g[p[id].parent].level == g[id].level + 1
  {
    var q := p[id].parent;
    assert NodeOk(p, g, root, id);
    assert NodeOk(p, g, root, q);
    var i :| 0 <= i < |p[q].kids| && p[q].kids[i] == id;
  }

  /** Two children of one page whose ranges share a key are the same child. */
  lemma SameChild(p: Pages, g: Infos, root: PageId, q: PageId, i: nat, j: nat, k: Key)
    requires Shape(p, g, root) && q in g && p[q].Internal?
    requires i < |p[q].kids| && j < |p[q].kids|
    requires p[q].kids[i] in g && p[q].kids[j] in g
    requires InRange(g[p[q].kids[i]], k) && InRange(g[p[q].kids[j]], k)
    ensures i == j
  {
    assert NodeOk(p, g, root, q);
    assert g[p[q].kids[i]] == ChildInfo(g[q], p[q].keys, i);
    assert g[p[q].kids[j]] == ChildInfo(g[q], p[q].keys, j);
  }

  /** Pages at one level have disjoint ranges. */
  lemma {:induction false} Unique(p: Pages, g: Infos, root: PageId, a: PageId, b: PageId, k: Key)
    requires Shape(p, g, root) && a in g && b in g
    requires g[a].level == g[b].level && InRange(g[a], k) && InRange(g[b], k)
    ensures a == b
    decreases g[root].level - g[a].level
  {
    assert NodeOk(p, g, root, a);
    assert NodeOk(p, g, root, b);
    if a != root && b != root {
      var qa, qb := p[a].parent, p[b].parent;
      ChildRange(p, g, root, a, k);
      ChildRange(p, g, root, b, k);
      assert NodeOk(p, g, root, qa);
      Unique(p, g, root, qa, qb, k);
      var i :| 0 <= i < |p[qa].kids| && p[qa].kids[i] == a;
      var j :| 0 <= j < |p[qa].kids| && p[qa].kids[j] == b;
      SameChild(p, g, root, qa, i, j, k);
    }
  }

  /** A page is listed once by its parent, at the index FirstIndex finds. */
  lemma ChildIndex(p: Pages, g: Infos, root: PageId, q: PageId, i: nat)
    requires Shape(p, g, root) && q in g && p[q].Internal? && i < |p[q].kids|
    ensures FirstIndex(p[q].kids, p[q].kids[i]) == i
  {
    assert NodeOk(p, g, root, q);
    var j := FirstIndex(p[q].kids, p[q].kids[i]);
    var a := p[q].kids[i];
    assert NodeOk(p, g, root, a);
    SameChild(p, g, root, q, i, j, SomeKey(g[a]));
  }

  /** A key inside a nonempty range. */
  function SomeKey(i: Info): (k: Key)
    requires Less(i.lo, i.hi)
    ensures InRange(i, k)
  {
    if i.lo.Fin? then i.lo.k else if i.hi.Fin? then i.hi.k - 1 else 0
  }
}

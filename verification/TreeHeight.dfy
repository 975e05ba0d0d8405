/** A tree of h levels holds a number of keys that grows exponentially with h. */
module TreeHeight {
  import opened Types
  import opened Nodes
  import opened TreeInvariant

  function Pow(b: nat, e: nat): nat {
    if e == 0 then 1 else b * Pow(b, e - 1)
  }

  /** The stored keys in a range. */
  ghost function KeysIn(m: map<Key, RID>, lo: Bound, hi: Bound): set<Key> {
    set k | k in m && Above(lo, k) && Below(k, hi)
  }

  /** Least number of keys below a page at a level, other than the root. */
  function LeastKeys(c: Caps, level: nat): nat {
    c.leafMax / 2 * Pow(c.internalMax / 2, level)
  }

  lemma LeastKeysStep(c: Caps, level: nat)
    requires level > 0
    ensures LeastKeys(c, level) == c.internalMax / 2 * LeastKeys(c, level - 1)
  {
    var a, b, r := c.leafMax / 2, c.internalMax / 2, Pow(c.internalMax / 2, level - 1);
    assert a * (b * r) == b * (a * r);
  }

  lemma {:induction false} ListedKeys(s: seq<Key>, keys: set<Key>)
    requires Sorted(s) && forall i :: 0 <= i < |s| ==> s[i] in keys
    ensures |keys| >= |s|
  {
    if s != [] {
      var last := s[|s| - 1];
      ListedKeys(s[..|s| - 1], keys - {last});
    }
  }

  lemma SubsetSize(a: set<Key>, b: set<Key>)
    requires a <= b
    ensures |a| <= |b|
  {
    assert b == a + (b - a);
  }

  /** A range cut at a key inside it. */
  lemma KeysCut(m: map<Key, RID>, lo: Bound, mid: Key, hi: Bound)
    requires Less(lo, Fin(mid)) && Less(Fin(mid), hi)
    ensures |KeysIn(m, lo, hi)| == |KeysIn(m, lo, Fin(mid))| + |KeysIn(m, Fin(mid), hi)|
  {
    var a, b := KeysIn(m, lo, Fin(mid)), KeysIn(m, Fin(mid), hi);
    assert a !! b && KeysIn(m, lo, hi) == a + b;
  }

  /** Where the first `i` children of an internal page end. */
  function UpTo(inf: Info, keys: seq<Key>, i: nat): Bound
    requires 0 < i <= |keys|
  {
    if i == |keys| then inf.hi else Fin(keys[i])
  }

  /** The keys of a leaf. */
  lemma KeysOfLeaf(p: Pages, g: Infos, root: PageId, m: map<Key, RID>, id: PageId)
    requires Shape(p, g, root) && Stores(p, g, m) && id in g && p[id].Leaf?
    ensures |KeysIn(m, g[id].lo, g[id].hi)| >= p[id].Size()
  {
    assert NodeOk(p, g, root, id);
    forall i | 0 <= i < |p[id].keys|
      ensures p[id].keys[i] in KeysIn(m, g[id].lo, g[id].hi)
    {
      assert InRange(g[id], p[id].keys[i]);
      assert Has(p[id], p[id].keys[i], p[id].vals[i]);
      assert Holds(p, g, p[id].keys[i], p[id].vals[i]);
    }
    ListedKeys(p[id].keys, KeysIn(m, g[id].lo, g[id].hi));
  }

  lemma TimesGrows(a: nat, b: nat, k: nat)
    requires a >= b
    ensures a * k >= b * k
  {
  }

  /** The keys below a page other than the root. */
  lemma {:induction false} KeysBelow(c: Caps, p: Pages, g: Infos, root: PageId, m: map<Key, RID>, id: PageId)
    requires Inv(c, p, g, root, Exact) && Stores(p, g, m) && id in g && id != root
    ensures |KeysIn(m, g[id].lo, g[id].hi)| >= LeastKeys(c, g[id].level)
    decreases g[id].level
  {
    assert NodeOk(p, g, root, id);
    assert SizeOk(c, p, root, Exact, id);
    if p[id].Leaf? {
      KeysOfLeaf(p, g, root, m, id);
    } else {
      KeysBelowKids(c, p, g, root, m, id, p[id].Size());
      TimesGrows(p[id].Size(), c.internalMax / 2, LeastKeys(c, g[id].level - 1));
      LeastKeysStep(c, g[id].level);
    }
  }

  /** The keys below the first `i` children of an internal page. */
  lemma {:induction false} KeysBelowKids(c: Caps, p: Pages, g: Infos, root: PageId, m: map<Key, RID>, id: PageId,
                                         i: nat)
    requires Inv(c, p, g, root, Exact) && Stores(p, g, m) && id in g && p[id].Internal?
    requires g[id].level > 0 && 0 < i <= |p[id].keys|
    ensures |KeysIn(m, g[id].lo, UpTo(g[id], p[id].keys, i))| >= i * LeastKeys(c, g[id].level - 1)
    decreases g[id].level, i
  {
    assert NodeOk(p, g, root, id);
    var keys, kid, least := p[id].keys, p[id].kids[i - 1], LeastKeys(c, g[id].level - 1);
    assert g[kid] == ChildInfo(g[id], keys, i - 1);
    assert NodeOk(p, g, root, kid);
    KeysBelow(c, p, g, root, m, kid);
    if i > 1 {
      KeysBelowKids(c, p, g, root, m, id, i - 1);
      KeysCut(m, g[id].lo, keys[i - 1], UpTo(g[id], keys, i));
      assert i * least == (i - 1) * least + least;
    }
  }

  /** A tree of h >= 2 levels holds at least 2 * (internalMax / 2)^(h - 2) * (leafMax / 2) keys. */
  lemma HeightBound(c: Caps, p: Pages, g: Infos, root: PageId, m: map<Key, RID>)
    requires Inv(c, p, g, root, Exact) && Stores(p, g, m) && g[root].level >= 1
    ensures |m| >= 2 * Pow(c.internalMax / 2, g[root].level - 1) * (c.leafMax / 2)
  {
    assert NodeOk(p, g, root, root);
    assert SizeOk(c, p, root, Exact, root);
    var n, least := p[root].Size(), LeastKeys(c, g[root].level - 1);
    KeysBelowKids(c, p, g, root, m, root, n);
    SubsetSize(KeysIn(m, NegInf, PosInf), m.Keys);
    Multiplied(c.leafMax / 2, Pow(c.internalMax / 2, g[root].level - 1), n);
  }

  lemma Multiplied(a: nat, r: nat, n: nat)
    requires n >= 2
    ensures n * (a * r) >= 2 * r * a
  {
    assert n * (a * r) >= 2 * (a * r);
    assert a * r == r * a;
  }

  /** With the capacities of a 4 KB page. */
  lemma HeightBoundDefault(p: Pages, g: Infos, root: PageId, m: map<Key, RID>)
    requires Inv(Caps(253, 338), p, g, root, Exact) && Stores(p, g, m) && g[root].level >= 1
    ensures |m| >= 2 * Pow(169, g[root].level - 1) * 126
  {
    HeightBound(Caps(253, 338), p, g, root, m);
  }
}

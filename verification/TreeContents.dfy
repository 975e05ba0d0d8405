/** How each change to the leaves changes the stored map. */
module TreeContents {
  import opened Types
  import opened Nodes
  import opened TreeInvariant

  // ---- pairs of one leaf ----

  lemma HasInsert(n: Node, key: Key, val: RID, k: Key, v: RID)
    requires n.Leaf? && n.Shaped() && !HasKey(n, key)
    ensures Has(LeafInsert(n, key, val), k, v) <==> Has(n, k, v) || (k == key && v == val)
  {
    var r, n2 := Rank(n.keys, key), LeafInsert(n, key, val);
    if Has(n, k, v) {
      var i :| 0 <= i < |n.keys| && n.keys[i] == k && n.vals[i] == v;
      var i2 := if i < r then i else i + 1;
      assert n2.keys[i2] == k && n2.vals[i2] == v;
    }
    assert n2.keys[r] == key && n2.vals[r] == val;
    if Has(n2, k, v) {
      var i :| 0 <= i < |n2.keys| && n2.keys[i] == k && n2.vals[i] == v;
      if i != r {
        var i0 := if i < r then i else i - 1;
        assert n.keys[i0] == k && n.vals[i0] == v;
      }
    }
  }

  lemma HasRemove(n: Node, r: nat, k: Key, v: RID)
    requires n.Leaf? && n.Shaped() && r < n.Size() && Sorted(n.keys)
    ensures Has(LeafRemoveAt(n, r), k, v) <==> Has(n, k, v) && k != n.keys[r]
  {
    hide RemoveAt;
    var n2 := LeafRemoveAt(n, r);
    RemovedAt(n.keys, r);
    RemovedAt(n.vals, r);
    if Has(n, k, v) && k != n.keys[r] {
      var i :| 0 <= i < |n.keys| && n.keys[i] == k && n.vals[i] == v;
      var i2 := if i < r then i else i - 1;
      assert n2.keys[i2] == k && n2.vals[i2] == v;
    }
    if Has(n2, k, v) {
      var i :| 0 <= i < |n2.keys| && n2.keys[i] == k && n2.vals[i] == v;
      var i0 := if i < r then i else i + 1;
      assert n.keys[i0] == k && n.vals[i0] == v;
    }
  }

  lemma RemovedAt<T>(s: seq<T>, r: nat)
    requires r < |s|
    ensures |RemoveAt(s, r)| == |s| - 1
    ensures forall i :: 0 <= i < |s| - 1 ==> RemoveAt(s, r)[i] == s[if i < r then i else i + 1]
  {
  }

  /** The pairs of a leaf whose entries are those of `l` followed by those of `r`. */
  lemma HasJoin(n: Node, l: Node, r: Node, k: Key, v: RID)
    requires n.Leaf? && l.Leaf? && r.Leaf? && l.Shaped() && r.Shaped()
    requires n.keys == l.keys + r.keys && n.vals == l.vals + r.vals
    ensures Has(n, k, v) <==> Has(l, k, v) || Has(r, k, v)
  {
    if Has(l, k, v) {
      var i :| 0 <= i < |l.keys| && l.keys[i] == k && l.vals[i] == v;
      assert n.keys[i] == k && n.vals[i] == v;
    }
    if Has(r, k, v) {
      var i :| 0 <= i < |r.keys| && r.keys[i] == k && r.vals[i] == v;
      assert n.keys[|l.keys| + i] == k && n.vals[|l.keys| + i] == v;
    }
    if Has(n, k, v) {
      var i :| 0 <= i < |n.keys| && n.keys[i] == k && n.vals[i] == v;
      if i < |l.keys| {
        assert l.keys[i] == k && l.vals[i] == v;
      } else {
        assert r.keys[i - |l.keys|] == k && r.vals[i - |l.keys|] == v;
      }
    }
  }

  lemma HasSame(n: Node, n2: Node, k: Key, v: RID)
    requires n.Leaf? == n2.Leaf? && (n.Leaf? ==> n.keys == n2.keys && n.vals == n2.vals)
    ensures Has(n, k, v) <==> Has(n2, k, v)
  {
    if Has(n, k, v) {
      var i :| 0 <= i < |n.keys| && n.keys[i] == k && n.vals[i] == v;
      assert n2.keys[i] == k && n2.vals[i] == v;
    }
    if Has(n2, k, v) {
      var i :| 0 <= i < |n2.keys| && n2.keys[i] == k && n2.vals[i] == v;
      assert n.keys[i] == k && n.vals[i] == v;
    }
  }

  // ---- pairs of the tree ----

  /** The same entries, whatever happened to the rest of the page. */
  predicate SameEntries(n: Node, n2: Node) {
    n.Leaf? == n2.Leaf? && (n.Leaf? ==> n.keys == n2.keys && n.vals == n2.vals)
  }

  /** Pairs move among the pages of `changed` only, and none is lost or made up. */
  lemma StoresMoved(p: Pages, g: Infos, p2: Pages, g2: Infos, changed: set<PageId>, m: map<Key, RID>)
    requires g.Keys <= p.Keys && g2.Keys <= p2.Keys && Stores(p, g, m)
    requires g.Keys - changed == g2.Keys - changed
    requires forall id :: id in g && id !in changed ==> id in g2 && SameEntries(p[id], p2[id])
    requires forall k, v, id :: id in changed && id in g && Has(p[id], k, v) ==> Holds(p2, g2, k, v)
    requires forall k, v, id :: id in changed && id in g2 && Has(p2[id], k, v) ==> Holds(p, g, k, v)
    ensures Stores(p2, g2, m)
  {
    forall k, v
      ensures Holds(p2, g2, k, v) <==> Holds(p, g, k, v)
    {
      if Holds(p, g, k, v) {
        var id :| id in g && Has(p[id], k, v);
        if id !in changed {
          assert id in g.Keys - changed;
          HasSame(p[id], p2[id], k, v);
        }
      }
      if Holds(p2, g2, k, v) {
        var id :| id in g2 && Has(p2[id], k, v);
        if id !in changed {
          assert id in g2.Keys - changed;
          HasSame(p[id], p2[id], k, v);
        }
      }
    }
  }

  /** A key is stored exactly when the leaf whose range contains it has it. */
  lemma StoredInLeaf(p: Pages, g: Infos, root: PageId, x: PageId, key: Key, m: map<Key, RID>)
    requires Shape(p, g, root) && Stores(p, g, m) && x in g && p[x].Leaf? && InRange(g[x], key)
    ensures p[x].Shaped()
    ensures key in m <==> HasKey(p[x], key)
    ensures HasKey(p[x], key) ==> m[key] == p[x].vals[Rank(p[x].keys, key)]
  {
    assert NodeOk(p, g, root, x);
    var r := Rank(p[x].keys, key);
    if HasKey(p[x], key) {
      assert Has(p[x], key, p[x].vals[r]);
      assert Holds(p, g, key, p[x].vals[r]);
    }
    if key in m {
      assert Holds(p, g, key, m[key]);
      var id :| id in g && Has(p[id], key, m[key]);
      var i :| 0 <= i < |p[id].keys| && p[id].keys[i] == key;
      assert NodeOk(p, g, root, id);
      assert InRange(g[id], p[id].keys[i]);
      Unique(p, g, root, id, x, key);
    }
  }

  lemma StoresInsert(p: Pages, g: Infos, root: PageId, x: PageId, key: Key, val: RID, m: map<Key, RID>)
    requires Shape(p, g, root) && Stores(p, g, m) && x in g && p[x].Leaf? && InRange(g[x], key)
    requires p[x].Shaped() && !HasKey(p[x], key)
    ensures Stores(p[x := LeafInsert(p[x], key, val)], g, m[key := val])
  {
    var p2 := p[x := LeafInsert(p[x], key, val)];
    StoredInLeaf(p, g, root, x, key, m);
    forall k, v
      ensures Holds(p2, g, k, v) <==> Holds(p, g, k, v) || (k == key && v == val)
    {
      HasInsert(p[x], key, val, k, v);
      if Holds(p, g, k, v) {
        var id :| id in g && Has(p[id], k, v);
        assert Has(p2[id], k, v);
      }
      if Holds(p2, g, k, v) {
        var id :| id in g && Has(p2[id], k, v);
        assert id != x ==> Has(p[id], k, v);
      }
      assert k == key && v == val ==> Has(p2[x], k, v);
    }
    forall k, v
      ensures Holds(p2, g, k, v) <==> k in m[key := val] && m[key := val][k] == v
    {
      assert Holds(p, g, k, v) <==> k in m && m[k] == v;
    }
  }

  lemma StoresRemove(p: Pages, g: Infos, root: PageId, x: PageId, key: Key, m: map<Key, RID>)
    requires Shape(p, g, root) && Stores(p, g, m) && x in g && p[x].Leaf? && InRange(g[x], key)
    requires p[x].Shaped() && HasKey(p[x], key)
    ensures Stores(p[x := LeafRemove(p[x], key)], g, m - {key})
  {
    var p2 := p[x := LeafRemove(p[x], key)];
    assert NodeOk(p, g, root, x);
    forall k, v
      ensures Holds(p2, g, k, v) <==> Holds(p, g, k, v) && k != key
    {
      HasRemove(p[x], Rank(p[x].keys, key), k, v);
      if Holds(p, g, k, v) && k != key {
        var id :| id in g && Has(p[id], k, v);
        assert Has(p2[id], k, v);
      }
      if Holds(p2, g, k, v) {
        var id :| id in g && Has(p2[id], k, v);
        assert Has(p[id], k, v);
        if id != x && k == key {
          HolderIsInRange(p, g, root, id, key, v);
          Unique(p, g, root, id, x, key);
        }
      }
    }
    forall k, v
      ensures Holds(p2, g, k, v) <==> k in m - {key} && (m - {key})[k] == v
    {
      assert Holds(p, g, k, v) <==> k in m && m[k] == v;
    }
  }

  lemma HolderIsInRange(p: Pages, g: Infos, root: PageId, id: PageId, key: Key, v: RID)
    requires Shape(p, g, root) && id in g && Has(p[id], key, v)
    ensures g[id].level == 0 && InRange(g[id], key)
  {
    assert NodeOk(p, g, root, id);
    var i :| 0 <= i < |p[id].keys| && p[id].keys[i] == key && p[id].vals[i] == v;
    assert InRange(g[id], p[id].keys[i]);
  }

  // ---- changing the entries of one leaf ----

  /** A leaf may be given any sorted entries within its range. */
  lemma LeafUpdateShape(p: Pages, g: Infos, root: PageId, x: PageId, n: Node)
    requires Shape(p, g, root) && x in g && p[x].Leaf?
    requires n.Leaf? && n.Shaped() && n.parent == p[x].parent && n.next == p[x].next && Sorted(n.keys)
    requires forall i :: 0 <= i < |n.keys| ==> InRange(g[x], n.keys[i])
    ensures Shape(p[x := n], g, root)
  {
    var p2 := p[x := n];
    forall id | id in g
      ensures NodeOk(p2, g, root, id)
    {
      assert NodeOk(p, g, root, id);
      assert ParentOk(p2, g, root, id);
      if p[id].Leaf? {
        assert LeafOk(p2, g, id);
      } else {
        assert InternalOk(p2, g, id);
      }
    }
  }

  lemma InsertSorted(n: Node, key: Key, val: RID)
    requires n.Leaf? && n.Shaped() && Sorted(n.keys) && !HasKey(n, key)
    ensures Sorted(LeafInsert(n, key, val).keys)
    ensures forall i :: 0 <= i <= |n.keys| ==>
        LeafInsert(n, key, val).keys[i] == key || LeafInsert(n, key, val).keys[i] in n.keys
  {
    var r, s := Rank(n.keys, key), LeafInsert(n, key, val).keys;
    forall i | 0 <= i < |s|
      ensures i < r ==> s[i] == n.keys[i] < key
      ensures i > r ==> s[i] == n.keys[i - 1] > key
    {
    }
  }
}

/** Range scans along the leaf chain (BPlusTreeIterator and BPlusTree::Begin). */
module TreeIterators {
  import opened Types
  import opened Nodes
  import opened PageStores
  import opened TreeInvariant
  import opened TreeContents
  import opened TreeSteps
  import opened BPlusTrees

  // ---- the leaf chain in key order ----

  /** After entry `i` of leaf `x` comes entry `i + 1`, or the first entry of the next leaf. */
  lemma NextKey(c: Caps, p: Pages, g: Infos, root: PageId, m: map<Key, RID>, x: PageId, i: nat, k: Key)
    requires Inv(c, p, g, root, Exact) && Stores(p, g, m) && x in g && p[x].Leaf? && i < p[x].Size()
    requires k in m && k > p[x].keys[i]
    ensures i + 1 < p[x].Size() ==> k >= p[x].keys[i + 1]
    ensures i + 1 == p[x].Size() ==>
      p[x].next in g && p[p[x].next].Leaf? && p[p[x].next].Size() > 0 && k >= p[p[x].next].keys[0]
  {
    assert NodeOk(p, g, root, x);
    assert InRange(g[x], p[x].keys[i]);
    assert Holds(p, g, k, m[k]);
    var y :| y in g && Has(p[y], k, m[k]);
    var j :| 0 <= j < |p[y].keys| && p[y].keys[j] == k;
    HolderIsInRange(p, g, root, y, k, m[k]);
    if Below(k, g[x].hi) {
      Unique(p, g, root, x, y, k);
      assert j > i;
    } else {
      var z := p[x].next;
      assert NodeOk(p, g, root, z);
      assert SizeOk(c, p, root, Exact, z);
      assert InRange(g[z], p[z].keys[0]);
      if Below(k, g[z].hi) {
        Unique(p, g, root, z, y, k);
      }
    }
  }

  /** Where a scan goes from entry `i` of leaf `x`. */
  function Successor(p: Pages, x: PageId, i: nat): (PageId, nat)
    requires x in p && p[x].Leaf?
  {
    if i + 1 < p[x].Size() then (x, i + 1) else (p[x].next, 0)
  }

  /** It goes to the least stored key above, or to the end if there is none. */
  lemma SuccessorIsNext(c: Caps, p: Pages, g: Infos, root: PageId, m: map<Key, RID>, x: PageId, i: nat)
    requires Inv(c, p, g, root, Exact) && Stores(p, g, m) && x in g && p[x].Leaf? && i < p[x].Size()
    ensures var (y, j) := Successor(p, x, i);
      if y == INVALID_PAGE_ID then forall k :: k in m ==> k <= p[x].keys[i]
      else
        && y in g && p[y].Leaf? && j < p[y].Size() && p[x].keys[i] < p[y].keys[j]
        && forall k :: k in m && k > p[x].keys[i] ==> p[y].keys[j] <= k
  {
    forall k | k in m && k > p[x].keys[i]
      ensures var (y, j) := Successor(p, x, i); y in g && p[y].Leaf? && j < p[y].Size() && p[y].keys[j] <= k
    {
      NextKey(c, p, g, root, m, x, i, k);
    }
    assert NodeOk(p, g, root, x);
    assert InRange(g[x], p[x].keys[i]);
    var z := p[x].next;
    if i + 1 == p[x].Size() && z != INVALID_PAGE_ID {
      assert NodeOk(p, g, root, z);
      assert SizeOk(c, p, root, Exact, z);
      assert InRange(g[z], p[z].keys[0]);
    }
  }

  /** The leaf with no lower bound starts with the least key. */
  lemma FirstKey(c: Caps, p: Pages, g: Infos, root: PageId, m: map<Key, RID>, x: PageId, k: Key)
    requires Inv(c, p, g, root, Exact) && Stores(p, g, m) && x in g && p[x].Leaf? && g[x].lo == NegInf && k in m
    ensures p[x].Size() > 0 && p[x].keys[0] <= k
  {
    assert NodeOk(p, g, root, x);
    assert SizeOk(c, p, root, Exact, x);
    assert InRange(g[x], p[x].keys[0]);
    assert Holds(p, g, k, m[k]);
    var y :| y in g && Has(p[y], k, m[k]);
    var j :| 0 <= j < |p[y].keys| && p[y].keys[j] == k;
    HolderIsInRange(p, g, root, y, k, m[k]);
    if Below(k, g[x].hi) {
      Unique(p, g, root, x, y, k);
    }
  }

  lemma EntryIsStored(p: Pages, g: Infos, m: map<Key, RID>, x: PageId, i: nat)
    requires g.Keys <= p.Keys && Stores(p, g, m) && x in g && p[x].Leaf? && p[x].Shaped() && i < p[x].Size()
    ensures p[x].keys[i] in m && m[p[x].keys[i]] == p[x].vals[i]
  {
    assert Has(p[x], p[x].keys[i], p[x].vals[i]);
    assert Holds(p, g, p[x].keys[i], p[x].vals[i]);
  }

  /** Among the stored keys from `key` on, there is one in this leaf. */
  ghost predicate KeyInLeaf(m: map<Key, RID>, range: Info, key: Key) {
    exists k :: k in m && key <= k && InRange(range, k)
  }

  /**
   Where Begin(key) lands: at an entry exactly if the leaf that covers the key has a key from it on,
   and that entry is then the least one.
   */
  lemma LandsAtEntry(p: Pages, g: Infos, root: PageId, m: map<Key, RID>, x: PageId, key: Key)
    requires Shape(p, g, root) && Stores(p, g, m) && x in g && p[x].Leaf? && InRange(g[x], key)
    ensures Rank(p[x].keys, key) < p[x].Size() <==> KeyInLeaf(m, g[x], key)
    ensures Rank(p[x].keys, key) < p[x].Size() ==>
      var first := p[x].keys[Rank(p[x].keys, key)]; key <= first && forall k :: k in m && key <= k ==> first <= k
  {
    assert NodeOk(p, g, root, x);
    var r := Rank(p[x].keys, key);
    forall k | k in m && key <= k && Below(k, g[x].hi)
      ensures InRange(g[x], k) && r < p[x].Size() && p[x].keys[r] <= k
    {
      assert InRange(g[x], k);
      StoredInLeaf(p, g, root, x, k, m);
      assert p[x].keys[Rank(p[x].keys, k)] == k;
    }
    if r < p[x].Size() {
      EntryIsStored(p, g, m, x, r);
      assert InRange(g[x], p[x].keys[r]);
    }
  }

  /** The same condition, read off the leaf: the key is at most the last one. */
  lemma LandsBeforeLast(keys: seq<Key>, key: Key)
    requires Sorted(keys)
    ensures Rank(keys, key) < |keys| <==> keys != [] && key <= keys[|keys| - 1]
  {
  }

  /** From behind the entries of a leaf the scan goes to the least stored key that its range does not exclude. */
  lemma AfterLeafIsNext(c: Caps, p: Pages, g: Infos, root: PageId, m: map<Key, RID>, x: PageId)
    requires Inv(c, p, g, root, Exact) && Stores(p, g, m) && x in g && p[x].Leaf?
    ensures p[x].Size() > 0
    ensures var y := p[x].next;
      if y == INVALID_PAGE_ID then forall k :: k in m ==> Below(k, g[x].hi)
      else
        && y in g && p[y].Leaf? && p[y].Size() > 0 && !Below(p[y].keys[0], g[x].hi)
        && forall k :: k in m && !Below(k, g[x].hi) ==> p[y].keys[0] <= k
  {
    assert NodeOk(p, g, root, x);
    assert SizeOk(c, p, root, Exact, x);
    var last := p[x].Size() - 1;
    assert InRange(g[x], p[x].keys[last]);
    SuccessorIsNext(c, p, g, root, m, x, last);
    var y := p[x].next;
    if y != INVALID_PAGE_ID {
      assert NodeOk(p, g, root, y);
      assert InRange(g[y], p[y].keys[0]);
    }
  }

  // ---- a key between two leaves ----

  function Consecutive(first: Key): (s: seq<Key>)
    ensures |s| == 126 && forall i :: 0 <= i < 126 ==> s[i] == first + i
  {
    seq(126, i => first + i)
  }

  function Rows(): (s: seq<RID>)
    ensures |s| == 126 && forall i :: 0 <= i < 126 ==> s[i] == RID(7, i)
  {
    seq(126, i requires 0 <= i => RID(7, i))
  }

  /** Two leaves under a root, with the least number of keys each, and ranges split at 1000. */
  function TwoLeaves(): Pages {
    map[1 := Leaf(3, Consecutive(0), Rows(), 2), 2 := Leaf(3, Consecutive(1000), Rows(), INVALID_PAGE_ID),
        3 := Internal(INVALID_PAGE_ID, [0, 1000], [1, 2])]
  }

  function TwoRanges(): Infos {
    map[1 := Info(0, NegInf, Fin(1000)), 2 := Info(0, Fin(1000), PosInf), 3 := Info(1, NegInf, PosInf)]
  }

  lemma TwoLeavesShape(id: PageId)
    requires id in TwoRanges()
    ensures NodeOk(TwoLeaves(), TwoRanges(), 3, id)
  {
    var p := TwoLeaves();
    assert p[3].kids[0] == 1 && p[3].kids[1] == 2;
  }

  /** Begin(500) lands behind the last entry of the first leaf, although 1000 is stored. */
  lemma LandsPastLeaf()
    ensures var p, g := TwoLeaves(), TwoRanges();
      && Inv(Caps(253, 338), p, g, 3, Exact) && Holds(p, g, 1000, RID(7, 0))
      && InRange(g[1], 500) && Rank(p[1].keys, 500) == p[1].Size()
  {
    hide NodeOk;
    var p, g := TwoLeaves(), TwoRanges();
    forall id | id in g
      ensures NodeOk(p, g, 3, id) && SizeOk(Caps(253, 338), p, 3, Exact, id)
    {
      TwoLeavesShape(id);
    }
    assert p[2].keys[0] == 1000 && p[2].vals[0] == RID(7, 0);
    assert Has(p[2], 1000, RID(7, 0));
  }

  class BPlusTreeIterator {
    ghost const tree: BPlusTree
    const bpm: PageStore<Node>
    var currPageId: PageId
    var currIndex: nat

    /** At the end, or somewhere in a leaf on which the iterator holds one pin above `others`. */
    ghost predicate Placed(others: Pins)
      reads this, tree, bpm
    {
      && tree.bpm == bpm && tree.Valid() && bpm.unsaved <= others.Keys
      && if currPageId == INVALID_PAGE_ID then bpm.pins == others
         else
           && currPageId in tree.info && bpm.pages[currPageId].Leaf? && currIndex <= bpm.pages[currPageId].Size()
           && bpm.pins == Inc(others, currPageId)
    }

    /** At the end or at an entry. */
    ghost predicate Valid(others: Pins)
      reads this, tree, bpm
    {
      Placed(others) && (currPageId != INVALID_PAGE_ID ==> currIndex < bpm.pages[currPageId].Size())
    }

    predicate IsEnd()
      reads this
    {
      currPageId == INVALID_PAGE_ID
    }

    /** The key the iterator stands at. */
    ghost function Current(others: Pins): Key
      requires Valid(others) && !IsEnd()
      reads this, tree, bpm
    {
      bpm.pages[currPageId].keys[currIndex]
    }

    /** Everything below this key has been passed. */
    ghost function Position(others: Pins): Bound
      requires Valid(others)
      reads this, tree, bpm
    {
      if IsEnd() then PosInf else Fin(Current(others))
    }

    constructor (tree: BPlusTree, pageId: PageId, index: nat)
      requires tree.Valid() && tree.Frames(1)
      requires pageId == INVALID_PAGE_ID ||
               (pageId in tree.info && tree.bpm.pages[pageId].Leaf? && index <= tree.bpm.pages[pageId].Size())
      modifies tree.bpm`pins
      ensures this.tree == tree && bpm == tree.bpm && currPageId == pageId && currIndex == index
      ensures Placed(old(tree.bpm.pins)) && bpm.unsaved == old(tree.bpm.unsaved)
    {
      this.tree, bpm, currPageId, currIndex := tree, tree.bpm, pageId, index;
      new;
      if currPageId != INVALID_PAGE_ID {
        var fetched := bpm.Fetch(currPageId);
      }
    }

    /** The destructor: the pin is given back. */
    method Close(ghost others: Pins)
      requires Placed(others)
      modifies this, bpm`pins, bpm`unsaved
      ensures IsEnd() && Valid(others) && bpm.unsaved == old(bpm.unsaved)
    {
      if currPageId != INVALID_PAGE_ID {
        DecInc(others, currPageId);
        var released := bpm.Unpin(currPageId, false);
        currPageId := INVALID_PAGE_ID;
      }
    }

    /** operator*: the pair the iterator stands at. */
    method Get(ghost others: Pins) returns (pair: (Key, RID))
      requires Valid(others) && !IsEnd()
      ensures pair.0 == Current(others)
      ensures pair.0 in tree.contents && tree.contents[pair.0] == pair.1
    {
      assert NodeOk(bpm.pages, tree.info, tree.rootPageId, currPageId);
      EntryIsStored(bpm.pages, tree.info, tree.contents, currPageId, currIndex);
      var leaf := bpm.At(currPageId);
      pair := (leaf.keys[currIndex], leaf.vals[currIndex]);
    }

    /**
     operator++: to the least stored key above the current one, or to the end if there is none; from behind the
     entries of a leaf, to the least stored key above the range of that leaf.
     */
    method Next(ghost others: Pins)
      requires Placed(others) && |others| < bpm.capacity
      modifies this, bpm`pins, bpm`unsaved
      ensures Valid(others) && bpm.unsaved == old(bpm.unsaved)
      ensures old(IsEnd()) ==> IsEnd()
      ensures old(Valid(others)) && !IsEnd() ==> Current(others) > old(Current(others))
      ensures old(Valid(others) && !IsEnd()) ==>
        forall k :: k in tree.contents && k > old(Current(others)) ==> !IsEnd() && Current(others) <= k
      ensures !old(Valid(others)) && !IsEnd() ==> !Below(Current(others), tree.info[old(currPageId)].hi)
      ensures !old(Valid(others)) ==>
        forall k :: k in tree.contents && !Below(k, tree.info[old(currPageId)].hi) ==>
          !IsEnd() && Current(others) <= k
    {
      if currPageId == INVALID_PAGE_ID {
        return;
      }
      assert NodeOk(bpm.pages, tree.info, tree.rootPageId, currPageId);
      if currIndex < bpm.At(currPageId).Size() {
        SuccessorIsNext(tree.caps, bpm.pages, tree.info, tree.rootPageId, tree.contents, currPageId, currIndex);
      } else {
        AfterLeafIsNext(tree.caps, bpm.pages, tree.info, tree.rootPageId, tree.contents, currPageId);
      }
      Advance(others);
    }

    /** The pin moves along when the iterator leaves a page. */
    method Advance(ghost others: Pins)
      requires bpm.Valid() && currPageId in bpm.pages && bpm.pages[currPageId].Leaf? && |others| < bpm.capacity
      requires bpm.pins == Inc(others, currPageId) && bpm.unsaved <= others.Keys
      requires var next := bpm.pages[currPageId].next; next == INVALID_PAGE_ID || next in bpm.pages
      modifies this, bpm`pins, bpm`unsaved
      ensures bpm.Valid() && bpm.unsaved == old(bpm.unsaved)
      ensures (currPageId, currIndex) == Successor(bpm.pages, old(currPageId), old(currIndex))
      ensures bpm.pins == if currPageId == INVALID_PAGE_ID then others else Inc(others, currPageId)
    {
      var leaf := bpm.At(currPageId);
      currIndex := currIndex + 1;
      if currIndex >= leaf.Size() {
        DecInc(others, currPageId);
        var released := bpm.Unpin(currPageId, false);
        currPageId, currIndex := leaf.next, 0;
        if currPageId != INVALID_PAGE_ID {
          var fetched := bpm.Fetch(currPageId);
        }
      }
    }
  }

  /** An iterator at the least key. */
  method Begin(tree: BPlusTree) returns (it: BPlusTreeIterator)
    requires tree.Valid() && tree.Frames(1)
    modifies tree.bpm`pins, tree.bpm`unsaved
    ensures fresh(it) && it.tree == tree && it.bpm == tree.bpm
    ensures it.Valid(old(tree.bpm.pins)) && tree.bpm.unsaved == old(tree.bpm.unsaved)
    ensures it.IsEnd() <==> tree.contents == map[]
    ensures forall k :: k in tree.contents ==> !it.IsEnd() && it.Current(old(tree.bpm.pins)) <= k
  {
    var bpm := tree.bpm;
    if tree.IsEmpty() {
      it := new BPlusTreeIterator(tree, INVALID_PAGE_ID, 0);
      return;
    }
    var id := tree.rootPageId;
    assert NodeOk(bpm.pages, tree.info, tree.rootPageId, id);
    NotEmpty(tree.caps, bpm.pages, tree.info, tree.rootPageId, tree.contents);
    var fetched := bpm.Fetch(id);
    while !bpm.At(id).Leaf?
      invariant bpm.Valid() && bpm.unsaved == old(bpm.unsaved) && bpm.pins == Inc(old(bpm.pins), id)
      invariant id in tree.info && tree.info[id].lo == NegInf
      decreases tree.info[id].level
    {
      assert NodeOk(bpm.pages, tree.info, tree.rootPageId, id);
      var leftmost := bpm.At(id).kids[0];
      DecInc(old(bpm.pins), id);
      var released := bpm.Unpin(id, false);
      id := leftmost;
      fetched := bpm.Fetch(id);
    }
    forall k | k in tree.contents {
      FirstKey(tree.caps, bpm.pages, tree.info, tree.rootPageId, tree.contents, id, k);
    }
    assert SizeOk(tree.caps, bpm.pages, tree.rootPageId, Exact, id);
    DecInc(old(bpm.pins), id);
    var released := bpm.Unpin(id, false);
    it := new BPlusTreeIterator(tree, id, 0);
  }

  /**
   Begin(key): at the least stored key from `key` on if that is in the leaf that covers `key`,
   else behind the last entry of that leaf.
   */
  method BeginAt(tree: BPlusTree, key: Key) returns (it: BPlusTreeIterator)
    requires tree.Valid() && tree.Frames(1)
    modifies tree.bpm`pins, tree.bpm`unsaved
    ensures fresh(it) && it.tree == tree && it.bpm == tree.bpm
    ensures it.Placed(old(tree.bpm.pins)) && tree.bpm.unsaved == old(tree.bpm.unsaved)
    ensures it.IsEnd() <==> tree.IsEmpty()
    ensures !it.IsEnd() ==> InRange(tree.info[it.currPageId], key)
    ensures !it.IsEnd() ==> (it.Valid(old(tree.bpm.pins)) <==> KeyInLeaf(tree.contents, tree.info[it.currPageId], key))
    ensures !it.IsEnd() ==>
      var keys := tree.bpm.pages[it.currPageId].keys;
      keys != [] && (it.Valid(old(tree.bpm.pins)) <==> key <= keys[|keys| - 1])
    ensures !it.IsEnd() && it.Valid(old(tree.bpm.pins)) ==>
      var first := it.Current(old(tree.bpm.pins)); key <= first && forall k :: k in tree.contents && key <= k ==>
          first <= k
  {
    var bpm := tree.bpm;
    var found, id := tree.FindLeafPage(key);
    if !found {
      it := new BPlusTreeIterator(tree, INVALID_PAGE_ID, 0);
      return;
    }
    LandsAtEntry(bpm.pages, tree.info, tree.rootPageId, tree.contents, id, key);
    assert NodeOk(bpm.pages, tree.info, tree.rootPageId, id);
    assert SizeOk(tree.caps, bpm.pages, tree.rootPageId, Exact, id);
    LandsBeforeLast(bpm.pages[id].keys, key);
    var index := Rank(bpm.At(id).keys, key);
    DecInc(old(bpm.pins), id);
    var released := bpm.Unpin(id, false);
    it := new BPlusTreeIterator(tree, id, index);
  }

  /** Begin(key), and operator++ once if that is behind the entries of its leaf. */
  method LeastFrom(tree: BPlusTree, key: Key) returns (it: BPlusTreeIterator)
    requires tree.Valid() && tree.Frames(1)
    modifies tree.bpm`pins, tree.bpm`unsaved
    ensures fresh(it) && it.tree == tree && it.bpm == tree.bpm
    ensures it.Valid(old(tree.bpm.pins)) && tree.bpm.unsaved == old(tree.bpm.unsaved)
    ensures !it.IsEnd() ==> key <= it.Current(old(tree.bpm.pins))
    ensures forall k :: k in tree.contents && key <= k ==> !it.IsEnd() && it.Current(old(tree.bpm.pins)) <= k
  {
    it := BeginAt(tree, key);
    if !it.IsEnd() && it.currIndex >= it.bpm.At(it.currPageId).Size() {
      assert forall k :: k in tree.contents && key <= k ==> !Below(k, tree.info[it.currPageId].hi);
      it.Next(old(tree.bpm.pins));
    }
  }

  // ---- whole scans ----

  function Keys(pairs: seq<(Key, RID)>): (s: seq<Key>)
    ensures |s| == |pairs| && forall i :: 0 <= i < |s| ==> s[i] == pairs[i].0
  {
    seq(|pairs|, i requires 0 <= i < |pairs| => pairs[i].0)
  }

  /** The pairs of `m` with keys in [from, upto), in increasing key order, each once. */
  ghost predicate Lists(pairs: seq<(Key, RID)>, m: map<Key, RID>, from: Bound, upto: Bound) {
    && Sorted(Keys(pairs))
    && (forall i :: 0 <= i < |pairs| ==>
          pairs[i].0 in m && m[pairs[i].0] == pairs[i].1 && InRange(Info(0, from, upto), pairs[i].0))
    && (forall k :: k in m && InRange(Info(0, from, upto), k) ==> k in Keys(pairs))
  }

  /** One more pair, and no stored key between it and the new end. */
  lemma ListsOneMore(pairs: seq<(Key, RID)>, m: map<Key, RID>, from: Bound, pair: (Key, RID), upto: Bound)
    requires Lists(pairs, m, from, Fin(pair.0)) && pair.0 in m && m[pair.0] == pair.1
    requires Above(from, pair.0) && Below(pair.0, upto)
    requires forall k :: k in m && k > pair.0 ==> !Below(k, upto)
    ensures Lists(pairs + [pair], m, from, upto)
  {
    assert Keys(pairs + [pair]) == Keys(pairs) + [pair.0];
    forall k | k in m && InRange(Info(0, from, upto), k)
      ensures k in Keys(pairs + [pair])
    {
      assert k < pair.0 ==> InRange(Info(0, from, Fin(pair.0)), k);
    }
    forall i | 0 <= i < |pairs|
      ensures InRange(Info(0, from, upto), pairs[i].0) && Keys(pairs)[i] < pair.0
    {
      assert InRange(Info(0, from, Fin(pair.0)), pairs[i].0);
    }
  }

  /** A list of all pairs has as many entries as the map. */
  lemma ListedOnce(pairs: seq<(Key, RID)>, m: map<Key, RID>)
    requires Lists(pairs, m, NegInf, PosInf)
    ensures |pairs| == |m|
  {
    var keys := Keys(pairs);
    SortedDistinct(keys);
    forall k
      ensures k in keys <==> k in m.Keys
    {
      if k in keys {
        var i :| 0 <= i < |keys| && keys[i] == k;
        assert pairs[i].0 == k;
      }
      assert InRange(Info(0, NegInf, PosInf), k);
    }
    assert (set k | k in keys) == m.Keys;
  }

  lemma {:induction false} SortedDistinct(s: seq<Key>)
    requires Sorted(s)
    ensures |set k | k in s| == |s|
  {
    if s != [] {
      var t, last := s[..|s| - 1], s[|s| - 1];
      SortedDistinct(t);
      assert s == t + [last];
      assert (set k | k in s) == (set k | k in t) + {last};
    }
  }

  /** Keys of `m` from `from` on. */
  ghost function Remaining(m: map<Key, RID>, from: Bound): set<Key> {
    set k | k in m && Above(from, k)
  }

  /** Runs an iterator to the end, counting increments. */
  method Drain(it: BPlusTreeIterator, ghost others: Pins, ghost from: Bound)
    returns (pairs: seq<(Key, RID)>, steps: nat)
    requires it.Valid(others) && |others| < it.bpm.capacity
    requires Lists([], it.tree.contents, from, it.Position(others))
    requires !it.IsEnd() ==> Above(from, it.Current(others))
    modifies it, it.bpm`pins, it.bpm`unsaved
    ensures it.Valid(others) && it.IsEnd() && it.bpm.unsaved == old(it.bpm.unsaved)
    ensures Lists(pairs, it.tree.contents, from, PosInf) && steps == |pairs|
  {
    ghost var m := it.tree.contents;
    pairs, steps := [], 0;
    while !it.IsEnd()
      invariant it.Valid(others) && it.bpm.unsaved == old(it.bpm.unsaved) && it.tree.contents == m
      invariant Lists(pairs, m, from, it.Position(others)) && steps == |pairs|
      invariant !it.IsEnd() ==> Above(from, it.Current(others))
      decreases Remaining(m, it.Position(others))
    {
      var pair := it.Get(others);
      it.Next(others);
      steps := steps + 1;
      ListsOneMore(pairs, m, from, pair, it.Position(others));
      pairs := pairs + [pair];
      assert pair.0 in Remaining(m, Fin(pair.0)) && pair.0 !in Remaining(m, it.Position(others));
      assert Remaining(m, it.Position(others)) <= Remaining(m, Fin(pair.0));
    }
  }

  /** A full scan visits exactly the stored pairs, in increasing key order, in one increment per pair. */
  method Scan(tree: BPlusTree) returns (pairs: seq<(Key, RID)>, steps: nat)
    requires tree.Valid() && tree.Frames(1)
    modifies tree.bpm`pins, tree.bpm`unsaved
    ensures tree.Valid() && tree.bpm.pins == old(tree.bpm.pins) && tree.bpm.unsaved == old(tree.bpm.unsaved)
    ensures Lists(pairs, tree.contents, NegInf, PosInf) && steps == |pairs| == |tree.contents|
  {
    var it := Begin(tree);
    pairs, steps := Drain(it, old(tree.bpm.pins), NegInf);
    ListedOnce(pairs, tree.contents);
  }

  lemma NoneInEmpty(tree: BPlusTree)
    requires tree.Valid()
    ensures tree.IsEmpty() ==> tree.contents == map[]
  {
  }

  /** A scan from a stored key visits exactly the pairs from that key on. */
  method ScanFrom(tree: BPlusTree, key: Key) returns (pairs: seq<(Key, RID)>, steps: nat)
    requires tree.Valid() && tree.Frames(1) && key in tree.contents
    modifies tree.bpm`pins, tree.bpm`unsaved
    ensures tree.Valid() && tree.bpm.pins == old(tree.bpm.pins) && tree.bpm.unsaved == old(tree.bpm.unsaved)
    ensures Lists(pairs, tree.contents, Fin(key), PosInf) && steps == |pairs|
  {
    NoneInEmpty(tree);
    var it := BeginAt(tree, key);
    assert KeyInLeaf(tree.contents, tree.info[it.currPageId], key);
    pairs, steps := Drain(it, old(tree.bpm.pins), Fin(key));
  }
}

/**
 The contents of a B+ tree page and the value that each page operation computes.
 The classes LeafPage and InternalPage carry out the same operations on fixed arrays
 and are proved against these functions.
 */
module Nodes {
  import opened Types

  /** In an internal page `keys[0]` is present but never read by a lookup. */
  datatype Node =
    | Leaf(parent: PageId, keys: seq<Key>, vals: seq<RID>, next: PageId)
    | Internal(parent: PageId, keys: seq<Key>, kids: seq<PageId>)
  {
    function Size(): nat {
      |keys|
    }

    predicate Shaped() {
      if Leaf? then |keys| == |vals| else |keys| == |kids|
    }
  }

  /** What a zero-filled page reads as. */
  const BLANK: Node := Leaf(0, [], [], 0)

  predicate Sorted(s: seq<Key>) {
    forall i, j :: 0 <= i < j < |s| ==> s[i] < s[j]
  }

  /** Number of leading keys below `key`: the position a binary search finds in a sorted sequence. */
  function Rank(keys: seq<Key>, key: Key): (r: nat)
    ensures r <= |keys|
    ensures forall i :: 0 <= i < r ==> keys[i] < key
    ensures r < |keys| ==> key <= keys[r]
  {
    if keys == [] || key <= keys[0] then 0 else 1 + Rank(keys[1..], key)
  }

  /** Index of the child to follow: the last one whose routing key is at most `key`. */
  function Route(keys: seq<Key>, key: Key): (r: nat)
    requires |keys| >= 1
    ensures r < |keys|
    ensures r == 0 || keys[r] <= key
    ensures forall i :: r < i < |keys| ==> key < keys[i]
  {
    if |keys| == 1 || keys[|keys| - 1] <= key then |keys| - 1 else Route(keys[..|keys| - 1], key)
  }

  /** Index of the first occurrence of `x`, or -1. */
  function FirstIndex(s: seq<PageId>, x: PageId): (i: int)
    ensures -1 <= i < |s|
    ensures i == -1 <==> x !in s
    ensures i >= 0 ==> s[i] == x
    ensures forall j :: 0 <= j < i ==> s[j] != x
  {
    if s == [] then -1
    else if s[0] == x then 0
    else
      var i := FirstIndex(s[1..], x);
      if i == -1 then -1 else i + 1
  }

  function InsertAt<T>(s: seq<T>, i: nat, x: T): (r: seq<T>)
    requires i <= |s|
  {
    s[..i] + [x] + s[i..]
  }

  function RemoveAt<T>(s: seq<T>, i: nat): (r: seq<T>)
    requires i < |s|
  {
    s[..i] + s[i + 1..]
  }

  predicate HasKey(n: Node, key: Key) {
    var i := Rank(n.keys, key);
    i < |n.keys| && n.keys[i] == key
  }

  // ---- leaf pages ----

  function LeafInsert(n: Node, key: Key, val: RID): (r: Node)
    requires n.Leaf? && n.Shaped()
    ensures r.Leaf? && r.Shaped() && r.Size() == n.Size() + if HasKey(n, key) then 0 else 1
  {
    var i := Rank(n.keys, key);
    if HasKey(n, key) then n else n.(keys := InsertAt(n.keys, i, key), vals := InsertAt(n.vals, i, val))
  }

  function LeafRemoveAt(n: Node, i: nat): (r: Node)
    requires n.Leaf? && n.Shaped() && i < n.Size()
    ensures r.Leaf? && r.Shaped()
  {
    n.(keys := RemoveAt(n.keys, i), vals := RemoveAt(n.vals, i))
  }

  function LeafRemove(n: Node, key: Key): (r: Node)
    requires n.Leaf? && n.Shaped()
    ensures r.Leaf? && r.Shaped()
  {
    if HasKey(n, key) then LeafRemoveAt(n, Rank(n.keys, key)) else n
  }

  /** Where a full page is cut: the upper `size / 2` entries leave. */
  function Cut(size: nat): (c: nat)
    ensures c <= size
  {
    size - size / 2
  }

  /** MoveHalfTo: what stays, and the recipient. */
  function LeafMoveHalf(n: Node, r: Node): (res: (Node, Node))
    requires n.Leaf? && n.Shaped() && r.Leaf?
    ensures res.0.Leaf? && res.0.Shaped() && res.1.Leaf? && res.1.Shaped()
  {
    var c := Cut(n.Size());
    (n.(keys := n.keys[..c], vals := n.vals[..c]), r.(keys := n.keys[c..], vals := n.vals[c..]))
  }

  function LeafMoveAll(n: Node, r: Node): (res: (Node, Node))
    requires n.Leaf? && n.Shaped() && r.Leaf? && r.Shaped()
    ensures res.0.Leaf? && res.0.Shaped() && res.1.Leaf? && res.1.Shaped()
  {
    (n.(keys := [], vals := []), r.(keys := r.keys + n.keys, vals := r.vals + n.vals, next := n.next))
  }

  function LeafMoveFirst(n: Node, r: Node): (res: (Node, Node))
    requires n.Leaf? && n.Shaped() && r.Leaf? && r.Shaped() && n.Size() > 0
    ensures res.0.Leaf? && res.0.Shaped() && res.1.Leaf? && res.1.Shaped()
  {
    (LeafRemoveAt(n, 0), LeafInsert(r, n.keys[0], n.vals[0]))
  }

  function LeafMoveLast(n: Node, r: Node): (res: (Node, Node))
    requires n.Leaf? && n.Shaped() && r.Leaf? && r.Shaped() && n.Size() > 0
    ensures res.0.Leaf? && res.0.Shaped() && res.1.Leaf? && res.1.Shaped()
  {
    var last := n.Size() - 1;
    (LeafRemoveAt(n, last), LeafInsert(r, n.keys[last], n.vals[last]))
  }

  // ---- internal pages ----

  /** The two children of a new root; `keys[0]` keeps the zero of the blank page. */
  function Populate(n: Node, first: PageId, key: Key, second: PageId): (r: Node)
    requires n.Internal?
    ensures r.Internal? && r.Shaped()
  {
    n.(keys := [0, key], kids := [first, second])
  }

  function InsertNodeAfter(n: Node, after: PageId, key: Key, kid: PageId): (r: Node)
    requires n.Internal? && n.Shaped()
    ensures r.Internal? && r.Shaped()
  {
    var i := FirstIndex(n.kids, after) + 1;
    n.(keys := InsertAt(n.keys, i, key), kids := InsertAt(n.kids, i, kid))
  }

  function SetKeyAt(n: Node, i: nat, key: Key): (r: Node)
    requires n.Internal? && n.Shaped() && i < n.Size()
    ensures r.Internal? && r.Shaped()
  {
    Internal(n.parent, n.keys[i := key], n.kids)
  }

  function InternalMoveHalf(n: Node, r: Node): (res: (Node, Node))
    requires n.Internal? && n.Shaped() && r.Internal?
    ensures res.0.Internal? && res.0.Shaped() && res.1.Internal? && res.1.Shaped()
  {
    var c := Cut(n.Size());
    (n.(keys := n.keys[..c], kids := n.kids[..c]), r.(keys := n.keys[c..], kids := n.kids[c..]))
  }

  function InternalRemoveAt(n: Node, i: nat): (r: Node)
    requires n.Internal? && n.Shaped() && i < n.Size()
    ensures r.Internal? && r.Shaped()
  {
    n.(keys := RemoveAt(n.keys, i), kids := RemoveAt(n.kids, i))
  }

  function InternalMoveAll(n: Node, r: Node, parentKey: Key): (res: (Node, Node))
    requires n.Internal? && n.Shaped() && r.Internal? && r.Shaped() && n.Size() > 0
    ensures res.0.Internal? && res.0.Shaped() && res.1.Internal? && res.1.Shaped()
  {
    (n.(keys := [], kids := []), r.(keys := r.keys + [parentKey] + n.keys[1..], kids := r.kids + n.kids))
  }

  function InternalMoveFirst(n: Node, r: Node, parentKey: Key): (res: (Node, Node))
    requires n.Internal? && n.Shaped() && r.Internal? && r.Shaped() && n.Size() > 0
    ensures res.0.Internal? && res.0.Shaped() && res.1.Internal? && res.1.Shaped()
  {
    (n.(keys := n.keys[1..], kids := n.kids[1..]), r.(keys := r.keys + [parentKey], kids := r.kids + [n.kids[0]]))
  }

  function InternalMoveLast(n: Node, r: Node, parentKey: Key): (res: (Node, Node))
    requires n.Internal? && n.Shaped() && r.Internal? && r.Shaped() && n.Size() > 0 && r.Size() > 0
    ensures res.0.Internal? && res.0.Shaped() && res.1.Internal? && res.1.Shaped()
  {
    var last := n.Size() - 1;
    (n.(keys := n.keys[..last], kids := n.kids[..last]),
     r.(keys := [r.keys[0], parentKey] + r.keys[1..], kids := [n.kids[last]] + r.kids))
  }

  /** A key that is listed stays as it is; any other goes to its sorted place, and nothing else changes. */
  lemma LeafInsertIs(n: Node, key: Key, val: RID)
    requires n.Leaf? && n.Shaped() && Sorted(n.keys)
    ensures key in n.keys ==> LeafInsert(n, key, val) == n
    ensures key !in n.keys ==> var r, i := LeafInsert(n, key, val), Rank(n.keys, key);
      && Sorted(r.keys) && r.parent == n.parent && r.next == n.next
      && r.keys == n.keys[..i] + [key] + n.keys[i..] && r.vals == n.vals[..i] + [val] + n.vals[i..]
  {
    Listed(n.keys, key);
  }

  /** The binary search position tells whether a key is listed. */
  lemma Listed(keys: seq<Key>, key: Key)
    requires Sorted(keys)
    ensures key in keys <==> Rank(keys, key) < |keys| && keys[Rank(keys, key)] == key
  {
    var r := Rank(keys, key);
    if key in keys {
      var i :| 0 <= i < |keys| && keys[i] == key;
      assert i >= r;
    }
  }

  // ---- where moved entries land ----

  /** Inserting a key below all others puts it in front. */
  lemma InsertInFront(n: Node, key: Key, val: RID)
    requires n.Leaf? && n.Shaped() && forall i :: 0 <= i < |n.keys| ==> key < n.keys[i]
    ensures LeafInsert(n, key, val) == n.(keys := [key] + n.keys, vals := [val] + n.vals)
  {
    assert Rank(n.keys, key) == 0;
  }

  /** Inserting a key above all others puts it at the end. */
  lemma InsertAtEnd(n: Node, key: Key, val: RID)
    requires n.Leaf? && n.Shaped() && forall i :: 0 <= i < |n.keys| ==> n.keys[i] < key
    ensures LeafInsert(n, key, val) == n.(keys := n.keys + [key], vals := n.vals + [val])
  {
    assert Rank(n.keys, key) == |n.keys|;
  }
}

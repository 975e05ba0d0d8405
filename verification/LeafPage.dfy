/** A leaf page in its frame (b_plus_tree_leaf_page.hpp): arrays with one cell more than the maximum size. */
module LeafPages {
  import opened Types
  import opened Nodes
  import ArrayMoves

  /** A binary search that leaves smaller keys below and the rest at or above its result has found the rank. */
  lemma {:induction false} RankIs(s: seq<Key>, key: Key, r: nat)
    requires r <= |s|
    requires forall i :: 0 <= i < r ==> s[i] < key
    requires r < |s| ==> key <= s[r]
    ensures r == Rank(s, key)
  {
    if r > 0 {
      RankIs(s[1..], key, r - 1);
    }
  }

  /** The first entry goes behind smaller ones. */
  lemma MovedFirst(n: Node, r: Node)
    requires n.Leaf? && n.Shaped() && r.Leaf? && r.Shaped() && n.Size() > 0
    ensures LeafMoveFirst(n, r).0 == n.(keys := n.keys[1..], vals := n.vals[1..])
    ensures (forall i :: 0 <= i < |r.keys| ==> r.keys[i] < n.keys[0]) ==>
      LeafMoveFirst(n, r).1 == r.(keys := r.keys + [n.keys[0]], vals := r.vals + [n.vals[0]])
  {
    if forall i :: 0 <= i < |r.keys| ==> r.keys[i] < n.keys[0] {
      InsertAtEnd(r, n.keys[0], n.vals[0]);
    }
  }

  /** The last entry goes before greater ones. */
  lemma MovedLast(n: Node, r: Node)
    requires n.Leaf? && n.Shaped() && r.Leaf? && r.Shaped() && n.Size() > 0
    ensures var last := n.Size() - 1;
      && LeafMoveLast(n, r).0 == n.(keys := n.keys[..last], vals := n.vals[..last])
      && ((forall i :: 0 <= i < |r.keys| ==> n.keys[last] < r.keys[i]) ==>
            LeafMoveLast(n, r).1 == r.(keys := [n.keys[last]] + r.keys, vals := [n.vals[last]] + r.vals))
  {
    var last := n.Size() - 1;
    if forall i :: 0 <= i < |r.keys| ==> n.keys[last] < r.keys[i] {
      InsertInFront(r, n.keys[last], n.vals[last]);
    }
  }

  class LeafPage {
    const maxSize: nat
    const keys: array<Key>
    const values: array<RID>
    var size: nat
    var parentPageId: PageId
    var pageId: PageId
    var nextPageId: PageId

    ghost predicate Valid()
      reads this
    {
      keys.Length == values.Length == maxSize + 1 && size <= maxSize + 1
    }

    /** The contents as a value. */
    ghost function View(): (n: Node)
      requires Valid()
      reads this, keys, values
      ensures n.Leaf? && n.Shaped() && n.Size() == size
    {
      Leaf(parentPageId, keys[..size], values[..size], nextPageId)
    }

    ghost predicate Apart(other: LeafPage)
      reads other
    {
      this != other && keys != other.keys && values != other.values
    }

    /** Init. */
    constructor (pageId: PageId, parentPageId: PageId, maxSize: nat)
      ensures Valid() && View() == Leaf(parentPageId, [], [], INVALID_PAGE_ID)
      ensures this.pageId == pageId && this.maxSize == maxSize && fresh(keys) && fresh(values)
    {
      this.pageId, this.parentPageId, this.maxSize := pageId, parentPageId, maxSize;
      keys, values := new Key[maxSize + 1](_ => 0), new RID[maxSize + 1](_ => RID(0, 0));
      size, nextPageId := 0, INVALID_PAGE_ID;
    }

    method KeyIndex(key: Key) returns (index: nat)
      requires Valid() && Sorted(View().keys)
      ensures index == Rank(View().keys, key)
    {
      var low, high := 0, size - 1;
      while low <= high
        invariant 0 <= low <= high + 1 <= size
        invariant forall i :: 0 <= i < low ==> keys[i] < key
        invariant forall i :: high < i < size ==> key <= keys[i]
      {
        var mid := low + (high - low) / 2;
        if keys[mid] < key {
          assert forall i :: 0 <= i <= mid ==> View().keys[i] <= View().keys[mid];
          low := mid + 1;
        } else {
          assert forall i :: mid <= i < size ==> View().keys[mid] <= View().keys[i];
          high := mid - 1;
        }
      }
      index := low;
      RankIs(View().keys, key, index);
    }

    method Lookup(key: Key) returns (found: bool, result: RID)
      requires Valid() && Sorted(View().keys)
      ensures found <==> key in View().keys
      ensures forall i :: 0 <= i < size && View().keys[i] == key ==> result == View().vals[i]
    {
      Listed(View().keys, key);
      var index := KeyIndex(key);
      found, result := index < size && keys[index] == key, RID(INVALID_PAGE_ID, 0);
      if found {
        result := values[index];
      }
    }

    method Insert(key: Key, value: RID) returns (newSize: nat)
      requires Valid() && Sorted(View().keys) && size <= maxSize
      modifies this`size, keys, values
      ensures Valid() && View() == LeafInsert(old(View()), key, value) && newSize == size
      ensures key in old(View()).keys ==> View() == old(View()) && newSize == old(size)
      ensures key !in old(View()).keys ==> var n, i := old(View()), Rank(old(View()).keys, key);
        && Sorted(View().keys) && newSize == old(size) + 1
        && View().keys == n.keys[..i] + [key] + n.keys[i..] && View().vals == n.vals[..i] + [value] + n.vals[i..]
        && View().parent == n.parent && View().next == n.next
    {
      LeafInsertIs(View(), key, value);
      var index := KeyIndex(key);
      if index < size && keys[index] == key {
        return size;
      }
      ArrayMoves.Insert(keys, index, size, key);
      ArrayMoves.Insert(values, index, size, value);
      size := size + 1;
      newSize := size;
    }

    method RemoveAt(index: nat)
      requires Valid() && index < size
      modifies this`size, keys, values
      ensures Valid() && View() == LeafRemoveAt(old(View()), index)
      ensures var n := old(View());
        View() == n.(keys := n.keys[..index] + n.keys[index + 1..], vals := n.vals[..index] + n.vals[index + 1..])
    {
      ArrayMoves.Remove(keys, index, size);
      ArrayMoves.Remove(values, index, size);
      size := size - 1;
    }

    method Remove(key: Key) returns (removed: bool)
      requires Valid() && Sorted(View().keys)
      modifies this`size, keys, values
      ensures Valid() && View() == LeafRemove(old(View()), key) && (removed <==> key in old(View()).keys)
      ensures !removed ==> View() == old(View())
      ensures removed ==> var n, i := old(View()), Rank(old(View()).keys, key);
        && i < |n.keys| && n.keys[i] == key
        && View() == n.(keys := n.keys[..i] + n.keys[i + 1..], vals := n.vals[..i] + n.vals[i + 1..])
    {
      Listed(View().keys, key);
      var index := KeyIndex(key);
      removed := index < size && keys[index] == key;
      if removed {
        RemoveAt(index);
      }
    }

    method MoveHalfTo(recipient: LeafPage)
      requires Valid() && recipient.Valid() && Apart(recipient) && size / 2 <= recipient.maxSize + 1
      modifies this`size, recipient`size, recipient.keys, recipient.values
      ensures Valid() && recipient.Valid()
      ensures (View(), recipient.View()) == LeafMoveHalf(old(View()), old(recipient.View()))
      ensures var n, r, c := old(View()), old(recipient.View()), old(size) - old(size) / 2;
        && View() == n.(keys := n.keys[..c], vals := n.vals[..c])
        && recipient.View() == r.(keys := n.keys[c..], vals := n.vals[c..])
    {
      var moveCount := size / 2;
      var startIndex := size - moveCount;
      ArrayMoves.Append(keys, startIndex, size, recipient.keys, 0);
      ArrayMoves.Append(values, startIndex, size, recipient.values, 0);
      assert recipient.keys[..moveCount] == keys[..size][startIndex..];
      assert recipient.values[..moveCount] == values[..size][startIndex..];
      assert keys[..startIndex] == keys[..size][..startIndex] && values[..startIndex] == values[..size][..startIndex];
      recipient.size, size := moveCount, startIndex;
    }

    method MoveAllTo(recipient: LeafPage)
      requires Valid() && recipient.Valid() && Apart(recipient) && recipient.size + size <= recipient.maxSize + 1
      modifies this`size, recipient`size, recipient`nextPageId, recipient.keys, recipient.values
      ensures Valid() && recipient.Valid()
      ensures (View(), recipient.View()) == LeafMoveAll(old(View()), old(recipient.View()))
      ensures var n, r := old(View()), old(recipient.View());
        && size == 0 && View() == n.(keys := [], vals := [])
        && recipient.View() == r.(keys := r.keys + n.keys, vals := r.vals + n.vals, next := n.next)
    {
      var at := recipient.size;
      ArrayMoves.Append(keys, 0, size, recipient.keys, at);
      ArrayMoves.Append(values, 0, size, recipient.values, at);
      recipient.size, recipient.nextPageId := at + size, nextPageId;
      size := 0;
    }

    method MoveFirstToEndOf(recipient: LeafPage)
      requires Valid() && recipient.Valid() && Apart(recipient) && size > 0
      requires Sorted(recipient.View().keys) && recipient.size <= recipient.maxSize
      modifies this`size, keys, values, recipient`size, recipient.keys, recipient.values
      ensures Valid() && recipient.Valid()
      ensures (View(), recipient.View()) == LeafMoveFirst(old(View()), old(recipient.View()))
      ensures var n, r := old(View()), old(recipient.View());
        && View() == n.(keys := n.keys[1..], vals := n.vals[1..])
        && ((forall i :: 0 <= i < |r.keys| ==> r.keys[i] < n.keys[0]) ==>
              recipient.View() == r.(keys := r.keys + [n.keys[0]], vals := r.vals + [n.vals[0]]))
    {
      MovedFirst(View(), recipient.View());
      var newSize := recipient.Insert(keys[0], values[0]);
      RemoveAt(0);
    }

    method MoveLastToFrontOf(recipient: LeafPage)
      requires Valid() && recipient.Valid() && Apart(recipient) && size > 0
      requires Sorted(recipient.View().keys) && recipient.size <= recipient.maxSize
      modifies this`size, keys, values, recipient`size, recipient.keys, recipient.values
      ensures Valid() && recipient.Valid()
      ensures (View(), recipient.View()) == LeafMoveLast(old(View()), old(recipient.View()))
      ensures var n, r, last := old(View()), old(recipient.View()), old(size) - 1;
        && View() == n.(keys := n.keys[..last], vals := n.vals[..last])
        && ((forall i :: 0 <= i < |r.keys| ==> n.keys[last] < r.keys[i]) ==>
              recipient.View() == r.(keys := [n.keys[last]] + r.keys, vals := [n.vals[last]] + r.vals))
    {
      MovedLast(View(), recipient.View());
      var last := size - 1;
      var newSize := recipient.Insert(keys[last], values[last]);
      RemoveAt(last);
    }
  }
}

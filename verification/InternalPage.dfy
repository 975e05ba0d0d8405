/** An internal page in its frame (b_plus_tree_internal_page.hpp); the first key cell is never read by a lookup. */
module InternalPages {
  import opened Types
  import opened Nodes
  import ArrayMoves

  /** Where a binary search over the routing keys ends up. */
  lemma {:induction false} RouteIs(s: seq<Key>, key: Key, r: nat)
    requires r < |s|
    requires r == 0 || s[r] <= key
    requires forall i :: r < i < |s| ==> key < s[i]
    ensures r == Route(s, key)
  {
    if r < |s| - 1 {
      RouteIs(s[..|s| - 1], key, r);
    }
  }

  /** Increasing from the second key on. */
  predicate RoutingSorted(keys: seq<Key>) {
    forall i, j :: 1 <= i < j < |keys| ==> keys[i] < keys[j]
  }

  /** The first place of `x`, or -1 if it is not there. */
  predicate PlaceOf(s: seq<PageId>, x: PageId, i: int) {
    if i == -1 then x !in s else 0 <= i < |s| && s[i] == x && x !in s[..i]
  }

  /** The new entry follows the first occurrence of the old child, or comes first if there is none. */
  lemma InsertNodeAfterIs(n: Node, after: PageId, key: Key, child: PageId)
    requires n.Internal? && n.Shaped()
    ensures forall i :: -1 <= i < n.Size() && PlaceOf(n.kids, after, i) ==>
      Nodes.InsertNodeAfter(n, after, key, child) ==
      n.(keys := n.keys[..i + 1] + [key] + n.keys[i + 1..], kids := n.kids[..i + 1] + [child] + n.kids[i + 1..])
  {
    forall i | -1 <= i < n.Size() && PlaceOf(n.kids, after, i)
      ensures i == FirstIndex(n.kids, after)
    {
      forall k | 0 <= k < i
        ensures n.kids[k] != after
      {
        assert n.kids[..i][k] == n.kids[k];
      }
    }
  }

  class InternalPage {
    const maxSize: nat
    const keys: array<Key>
    const values: array<PageId>
    var size: nat
    var parentPageId: PageId
    var pageId: PageId

    ghost predicate Valid()
      reads this
    {
      keys.Length == values.Length == maxSize + 1 && size <= maxSize + 1 && maxSize >= 1
    }

    /** The contents as a value. */
    ghost function View(): (n: Node)
      requires Valid()
      reads this, keys, values
      ensures n.Internal? && n.Shaped() && n.Size() == size
    {
      Internal(parentPageId, keys[..size], values[..size])
    }

    ghost predicate Apart(other: InternalPage)
      reads other
    {
      this != other && keys != other.keys && values != other.values
    }

    /** Init, in a blank frame. */
    constructor (pageId: PageId, parentPageId: PageId, maxSize: nat)
      requires maxSize >= 1
      ensures Valid() && View() == Internal(parentPageId, [], []) && keys[0] == 0
      ensures this.pageId == pageId && this.maxSize == maxSize && fresh(keys) && fresh(values)
    {
      this.pageId, this.parentPageId, this.maxSize := pageId, parentPageId, maxSize;
      keys, values := new Key[maxSize + 1](_ => 0), new PageId[maxSize + 1](_ => 0);
      size := 0;
    }

    method Lookup(key: Key) returns (child: PageId)
      requires Valid() && size >= 1 && RoutingSorted(View().keys)
      ensures child == View().kids[Route(View().keys, key)]
      ensures exists i ::
        && 0 <= i < size && child == View().kids[i] && (i == 0 || View().keys[i] <= key)
        && forall j :: i < j < size ==> key < View().keys[j]
    {
      var low, high := 1, size - 1;
      while low <= high
        invariant 1 <= low <= high + 1 <= size
        invariant low > 1 ==> keys[low - 1] <= key
        invariant forall i :: high < i < size ==> key < keys[i]
      {
        var mid := low + (high - low) / 2;
        if keys[mid] <= key {
          low := mid + 1;
        } else {
          assert forall i :: mid <= i < size ==> View().keys[mid] <= View().keys[i];
          high := mid - 1;
        }
      }
      RouteIs(View().keys, key, low - 1);
      child := values[low - 1];
    }

    /** On a page just initialized. */
    method MakeRoot(first: PageId, key: Key, second: PageId)
      requires Valid() && keys[0] == 0
      modifies this`size, keys, values
      ensures Valid() && View() == Populate(old(View()), first, key, second)
      ensures View() == old(View()).(keys := [0, key], kids := [first, second])
    {
      values[0], keys[1], values[1] := first, key, second;
      size := 2;
      assert keys[..2] == [0, key] && values[..2] == [first, second];
    }

    /** Position of a child, or -1. */
    method IndexOf(child: PageId) returns (index: int)
      requires Valid()
      ensures index == FirstIndex(View().kids, child)
    {
      index := -1;
      for i := 0 to size
        invariant forall k :: 0 <= k < i ==> values[k] != child
      {
        if values[i] == child {
          assert View().kids[i] == child;
          return i;
        }
      }
    }

    method InsertNodeAfter(after: PageId, key: Key, child: PageId)
      requires Valid() && size <= maxSize
      modifies this`size, keys, values
      ensures Valid() && View() == Nodes.InsertNodeAfter(old(View()), after, key, child)
      ensures forall i :: -1 <= i < old(size) && PlaceOf(old(View()).kids, after, i) ==>
        var n := old(View());
        && View().keys == n.keys[..i + 1] + [key] + n.keys[i + 1..]
        && View() == n.(keys := View().keys, kids := n.kids[..i + 1] + [child] + n.kids[i + 1..])
    {
      hide InsertAt, FirstIndex;
      InsertNodeAfterIs(View(), after, key, child);
      var index := IndexOf(after);
      ArrayMoves.Insert(keys, index + 1, size, key);
      ArrayMoves.Insert(values, index + 1, size, child);
      size := size + 1;
    }

    method MoveHalfTo(recipient: InternalPage)
      requires Valid() && recipient.Valid() && Apart(recipient) && size / 2 <= recipient.maxSize + 1
      modifies this`size, recipient`size, recipient.keys, recipient.values
      ensures Valid() && recipient.Valid()
      ensures (View(), recipient.View()) == InternalMoveHalf(old(View()), old(recipient.View()))
      ensures var n, r, c := old(View()), old(recipient.View()), old(size) - old(size) / 2;
        && View() == n.(keys := n.keys[..c], kids := n.kids[..c])
        && recipient.View() == r.(keys := n.keys[c..], kids := n.kids[c..])
    {
      var moveCount := size / 2;
      var startIndex := size - moveCount;
      ArrayMoves.Append(keys, startIndex, size, recipient.keys, 0);
      ArrayMoves.Append(values, startIndex, size, recipient.values, 0);
      assert recipient.keys[..moveCount] == keys[..size][startIndex..];
      assert recipient.values[..moveCount] == values[..size][startIndex..];
      assert keys[..startIndex] == keys[..size][..startIndex] && values[..startIndex] == values[..size][..startIndex];
      recipient.size, size := moveCount, startIndex;
    }

    method Remove(index: nat)
      requires Valid() && index < size
      modifies this`size, keys, values
      ensures Valid() && View() == InternalRemoveAt(old(View()), index)
      ensures var n := old(View());
        View() == n.(keys := n.keys[..index] + n.keys[index + 1..], kids := n.kids[..index] + n.kids[index + 1..])
    {
      ArrayMoves.Remove(keys, index, size);
      ArrayMoves.Remove(values, index, size);
      size := size - 1;
    }

    method MoveAllTo(recipient: InternalPage, parentKey: Key)
      requires Valid() && recipient.Valid() && Apart(recipient) && size > 0
      requires recipient.size + size <= recipient.maxSize + 1
      modifies this`size, recipient`size, recipient.keys, recipient.values
      ensures Valid() && recipient.Valid()
      ensures (View(), recipient.View()) == InternalMoveAll(old(View()), old(recipient.View()), parentKey)
      ensures var n, r := old(View()), old(recipient.View());
        && size == 0 && View() == n.(keys := [], kids := [])
        && recipient.View() == r.(keys := r.keys + [parentKey] + n.keys[1..], kids := r.kids + n.kids)
    {
      var at := recipient.size;
      recipient.keys[at] := parentKey;
      assert recipient.keys[..at + 1] == old(recipient.keys[..at]) + [parentKey];
      ArrayMoves.Append(keys, 1, size, recipient.keys, at + 1);
      ArrayMoves.Append(values, 0, size, recipient.values, at);
      assert keys[1..size] == keys[..size][1..];
      recipient.size, size := at + size, 0;
    }

    method MoveFirstToEndOf(recipient: InternalPage, parentKey: Key)
      requires Valid() && recipient.Valid() && Apart(recipient) && size > 0 && recipient.size <= recipient.maxSize
      modifies this`size, keys, values, recipient`size, recipient.keys, recipient.values
      ensures Valid() && recipient.Valid()
      ensures (View(), recipient.View()) == InternalMoveFirst(old(View()), old(recipient.View()), parentKey)
      ensures var n, r := old(View()), old(recipient.View());
        && View() == n.(keys := n.keys[1..], kids := n.kids[1..])
        && recipient.View() == r.(keys := r.keys + [parentKey], kids := r.kids + [n.kids[0]])
    {
      var at := recipient.size;
      recipient.keys[at], recipient.values[at] := parentKey, values[0];
      recipient.size := at + 1;
      assert recipient.keys[..at + 1] == old(recipient.keys[..at]) + [parentKey];
      assert recipient.values[..at + 1] == old(recipient.values[..at]) + [values[0]];
      assert RemoveAt(keys[..size], 0) == keys[..size][1..] && RemoveAt(values[..size], 0) == values[..size][1..];
      ArrayMoves.Remove(keys, 0, size);
      ArrayMoves.Remove(values, 0, size);
      size := size - 1;
    }

    method MoveLastToFrontOf(recipient: InternalPage, parentKey: Key)
      requires Valid() && recipient.Valid() && Apart(recipient) && size > 0
      requires 0 < recipient.size <= recipient.maxSize
      modifies this`size, recipient`size, recipient.keys, recipient.values
      ensures Valid() && recipient.Valid()
      ensures (View(), recipient.View()) == InternalMoveLast(old(View()), old(recipient.View()), parentKey)
      ensures var n, r, last := old(View()), old(recipient.View()), old(size) - 1;
        && View() == n.(keys := n.keys[..last], kids := n.kids[..last])
        && recipient.View() == r.(keys := [r.keys[0], parentKey] + r.keys[1..], kids := [n.kids[last]] + r.kids)
    {
      ghost var r, n := recipient.View(), View();
      ArrayMoves.Insert(recipient.keys, 0, recipient.size, recipient.keys[0]);
      ArrayMoves.Insert(recipient.values, 0, recipient.size, values[size - 1]);
      recipient.keys[1] := parentKey;
      recipient.size := recipient.size + 1;
      size := size - 1;
      assert recipient.keys[..recipient.size] == InsertAt(r.keys, 0, r.keys[0])[1 := parentKey];
      assert recipient.keys[..recipient.size] == [r.keys[0], parentKey] + r.keys[1..];
      assert recipient.values[..recipient.size] == [n.kids[size]] + r.kids;
      assert keys[..size] == n.keys[..size] && values[..size] == n.kids[..size];
    }
  }
}

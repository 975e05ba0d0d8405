/** Tuples in a doubly linked chain of table pages (table_heap.hpp). */
module TableHeaps {
  import opened Types
  import opened ByteCodes
  import opened TupleCodec
  import opened TablePages
  import opened PageStores

  type Pages = map<PageId, Page>

  /** Page `k` of the chain: valid, and linked to its neighbours in both directions. */
  ghost predicate LinkOk(pages: Pages, chain: seq<PageId>, k: nat)
    requires k < |chain|
  {
    && chain[k] in pages && chain[k] != INVALID_PAGE_ID && PageOk(pages[chain[k]])
    && HeaderOf(pages[chain[k]]).pageId == chain[k]
    && HeaderOf(pages[chain[k]]).prev == (if k == 0 then INVALID_PAGE_ID else chain[k - 1])
    && HeaderOf(pages[chain[k]]).next == (if k + 1 < |chain| then chain[k + 1] else INVALID_PAGE_ID)
  }

  /** The chain is acyclic and doubly linked. */
  ghost predicate ChainOk(pages: Pages, chain: seq<PageId>) {
    && (forall k :: 0 <= k < |chain| ==> LinkOk(pages, chain, k))
    && (forall i, j :: 0 <= i < j < |chain| ==> chain[i] != chain[j])
  }

  /** The tuples by record id. */
  ghost function Rows(pages: Pages, chain: seq<PageId>): imap<RID, Bytes> {
    imap r: RID | r.pageId in chain && r.pageId in pages && PageOk(pages[r.pageId])
        && r.slotNum in Tuples(pages[r.pageId])
      :: Tuples(pages[r.pageId])[r.slotNum]
  }

  /** The rows after `r` was made to hold `d`. */
  ghost function WithRow(m: imap<RID, Bytes>, r: RID, d: Bytes): imap<RID, Bytes> {
    if d == [] then m - {r} else m[r := d]
  }

  /** Page `id` has room for the bytes `d`. */
  predicate HasRoom(pages: Pages, id: PageId, d: Bytes) {
    id in pages && PageOk(pages[id]) && CanInsert(pages[id], d)
  }

  /** The first page of the chain, from page `k` on, that has room. */
  function FirstRoom(pages: Pages, chain: seq<PageId>, d: Bytes, k: nat): (r: nat)
    requires k <= |chain|
    ensures k <= r <= |chain| && (r < |chain| ==> HasRoom(pages, chain[r], d))
    ensures forall j :: k <= j < r ==> !HasRoom(pages, chain[j], d)
    decreases |chain| - k
  {
    hide HasRoom;
    if k == |chain| || HasRoom(pages, chain[k], d) then k else FirstRoom(pages, chain, d, k + 1)
  }

  /** One step of the search. */
  lemma RoomHere(pages: Pages, chain: seq<PageId>, d: Bytes, k: nat)
    requires ChainOk(pages, chain) && k < |chain|
    ensures LinkOk(pages, chain, k) && chain[k] in pages && PageOk(pages[chain[k]])
    ensures CanInsert(pages[chain[k]], d) ==> FirstRoom(pages, chain, d, k) == k
    ensures !CanInsert(pages[chain[k]], d) ==> FirstRoom(pages, chain, d, k) == FirstRoom(pages, chain, d, k + 1)
    ensures FirstRoom(pages, chain, d, |chain|) == |chain|
  {
    assert LinkOk(pages, chain, k);
  }

  /** GetNextPageId. */
  function NextPageId(b: Page): PageId {
    GetU32(b, 16)
  }

  lemma NextInChain(pages: Pages, chain: seq<PageId>, k: nat)
    requires ChainOk(pages, chain) && k < |chain|
    ensures LinkOk(pages, chain, k) && chain[k] in pages && chain[k] != INVALID_PAGE_ID
    ensures NextPageId(pages[chain[k]]) == if k + 1 < |chain| then chain[k + 1] else INVALID_PAGE_ID
    ensures NextPageId(pages[chain[k]]) == INVALID_PAGE_ID <==> k + 1 == |chain|
  {
    assert LinkOk(pages, chain, k);
    assert k + 1 < |chain| ==> LinkOk(pages, chain, k + 1);
  }

  /** No page has room for more than 4068 bytes. */
  lemma RoomBound(b: Page, d: Bytes)
    requires PageOk(b) && CanInsert(b, d)
    ensures |d| <= 4068
  {
  }

  /** A new page pinned and released around the release of another. */
  lemma ReleasedBoth(pins: Pins, last: PageId, id: PageId)
    requires last in pins && id !in pins
    ensures last in Inc(pins, id) && id in Dec(Inc(pins, id), last)
    ensures Dec(Dec(Inc(pins, id), last), id) == Dec(pins, last)
  {
  }

  // ---- changing pages of the chain ----

  /** One page of the chain changes, but not its links. */
  lemma ChainKept(pages: Pages, chain: seq<PageId>, k: nat, c: Page)
    requires ChainOk(pages, chain) && k < |chain|
    requires LinkOk(pages, chain, k) && PageOk(c) && SameLinks(HeaderOf(pages[chain[k]]), HeaderOf(c))
    ensures ChainOk(pages[chain[k] := c], chain)
  {
    hide HeaderOf, PageOk;
    var pages2 := pages[chain[k] := c];
    forall j | 0 <= j < |chain|
      ensures LinkOk(pages2, chain, j)
    {
      assert LinkOk(pages, chain, j);
    }
  }

  lemma RowsChanged(pages: Pages, chain: seq<PageId>, id: PageId, c: Page, slot: nat, d: Bytes)
    requires id in chain && id in pages && PageOk(pages[id]) && PageOk(c)
    requires Tuples(c) == Holding(Tuples(pages[id]), slot, d)
    ensures Rows(pages[id := c], chain) == WithRow(Rows(pages, chain), RID(id, slot), d)
  {
    hide Tuples, PageOk;
  }

  /** A fresh page goes to the end of the chain. */
  function Extended(pages: Pages, last: PageId, id: PageId, blank: Page): Pages
    requires last in pages
  {
    pages[id := Initial(blank, id, last)][last := SetU32(pages[last], 16, id)]
  }

  lemma ExtendedChain(pages: Pages, chain: seq<PageId>, id: PageId, blank: Page)
    requires ChainOk(pages, chain) && chain != [] && chain[|chain| - 1] in pages
    requires id !in pages && id != INVALID_PAGE_ID
    ensures ChainOk(Extended(pages, chain[|chain| - 1], id, blank), chain + [id])
  {
    hide HeaderOf, PageOk, SetU32, Initial;
    var n, last := |chain|, chain[|chain| - 1];
    var pages2 := Extended(pages, last, id, blank);
    assert LinkOk(pages, chain, n - 1);
    InitRefines(blank, id, last);
    NextRefines(pages[last], id);
    forall j | 0 <= j < n + 1
      ensures LinkOk(pages2, chain + [id], j)
    {
      if j < n {
        assert LinkOk(pages, chain, j);
      }
    }
    forall i | 0 <= i < n
      ensures chain[i] != id
    {
      assert LinkOk(pages, chain, i);
    }
  }

  lemma ExtendedRows(pages: Pages, chain: seq<PageId>, id: PageId, blank: Page)
    requires ChainOk(pages, chain) && chain != [] && chain[|chain| - 1] in pages && id !in pages
    ensures Rows(Extended(pages, chain[|chain| - 1], id, blank), chain + [id]) == Rows(pages, chain)
  {
    hide Tuples, PageOk, SetU32, Initial, HeaderOf, Formed;
    var last := chain[|chain| - 1];
    assert LinkOk(pages, chain, |chain| - 1);
    InitRefines(blank, id, last);
    NextRefines(pages[last], id);
  }

  /** A formatted page on its own. */
  lemma OneChain(pages: Pages, id: PageId, blank: Page)
    requires id != INVALID_PAGE_ID
    ensures var pages2 := pages[id := Initial(blank, id, INVALID_PAGE_ID)];
      ChainOk(pages2, [id]) && Rows(pages2, [id]) == imap[]
  {
    hide PageOk, HeaderOf, Tuples, Initial;
    var pages2 := pages[id := Initial(blank, id, INVALID_PAGE_ID)];
    InitRefines(blank, id, INVALID_PAGE_ID);
    assert LinkOk(pages2, [id], 0);
  }

  lemma NoChain(pages: Pages)
    ensures ChainOk(pages, []) && Rows(pages, []) == imap[]
  {
  }

  /** A fresh page takes a tuple exactly if its encoding has at most 4068 bytes. */
  lemma FreshRoom(blank: Page, id: U32, prev: U32, d: Bytes)
    ensures PageOk(Initial(blank, id, prev)) && InsertSlot(Initial(blank, id, prev)) == 0
    ensures CanInsert(Initial(blank, id, prev), d) <==> |d| <= 4068
  {
    hide Initial;
    InitRefines(blank, id, prev);
  }

  /** A string of 4065 characters makes a tuple that no page takes. */
  lemma LongTupleIsLost(blank: Page, id: U32, prev: U32)
    ensures var b, t := Initial(blank, id, prev), [VarChar(Zeros(4065))];
      |EncodeTuple(t)| == 4069 && PageOk(b) && !CanInsert(b, EncodeTuple(t))
  {
    var t := [VarChar(Zeros(4065))];
    assert EncodeTuple(t) == Encode(t[0]);
    FreshRoom(blank, id, prev, EncodeTuple(t));
  }

  /** A tuple that can be stored is there under a fresh id; any other leaves no trace. */
  ghost predicate RowAdded(before: imap<RID, Bytes>, rid: RID, d: Bytes, after: imap<RID, Bytes>) {
    if 1 <= |d| <= 4068 then rid !in before && after == before[rid := d] else after == before
  }

  // ---- the heap ----

  class TableHeap {
    const bpm: PageStore<Page>
    const firstPageId: PageId
    ghost var chain: seq<PageId>

    ghost predicate Valid()
      reads this, bpm
    {
      && bpm.Valid()
      && ChainOk(bpm.pages, chain)
      && firstPageId == if chain == [] then INVALID_PAGE_ID else chain[0]
    }

    /** The tuples by record id. */
    ghost function Records(): imap<RID, Bytes>
      reads this, bpm
    {
      Rows(bpm.pages, chain)
    }

    /** A heap that exists already. */
    constructor Open(bpm: PageStore<Page>, firstPageId: PageId, ghost chain: seq<PageId>)
      requires bpm.Valid() && ChainOk(bpm.pages, chain)
      requires firstPageId == if chain == [] then INVALID_PAGE_ID else chain[0]
      ensures Valid() && this.bpm == bpm && this.chain == chain
    {
      this.bpm, this.firstPageId, this.chain := bpm, firstPageId, chain;
    }

    /** A new heap: one empty page, or none if every frame is pinned. */
    constructor Create(bpm: PageStore<Page>)
      requires bpm.Valid() && bpm.Room(1)
      modifies bpm
      ensures Valid() && this.bpm == bpm && Records() == imap[] && bpm.pins == old(bpm.pins)
      ensures |chain| == if |old(bpm.pins)| < bpm.capacity then 1 else 0
      ensures forall id :: id in old(bpm.pages) ==>
        id !in chain && id in bpm.pages && bpm.pages[id] == old(bpm.pages)[id]
    {
      hide PageOk, HeaderOf, Tuples, Initial, ChainOk, Rows, Inc, Dec, PinCount;
      var ok, id := bpm.New();
      NoChain(bpm.pages);
      if ok {
        OneChain(bpm.pages, id, bpm.blank);
        bpm.Put(id, Initial(bpm.blank, id, INVALID_PAGE_ID));
        DecInc(old(bpm.pins), id);
        var released := bpm.Unpin(id, true);
      }
      this.bpm, firstPageId, chain := bpm, id, if ok then [id] else [];
    }

    /** What a call may do to the rest of the store: nothing. */
    twostate predicate Balanced()
      reads this, bpm
    {
      && bpm.pins == old(bpm.pins) && bpm.unsaved <= old(bpm.unsaved)
      && forall id :: id in old(bpm.pages) && id !in old(chain) ==>
           id in bpm.pages && bpm.pages[id] == old(bpm.pages)[id]
    }

    /**
     The tuple goes to the first page of the chain with room, else to a page added at the end. A tuple that can
     be stored at all is stored under a fresh id; one that is empty or longer than 4068 bytes is not stored,
     although the call reports success.
     */
    method InsertTuple(t: Tuple) returns (ok: bool, rid: RID)
      requires Valid() && bpm.Room(1) && |EncodeTuple(t)| + 8 <= 0xFFFF_FFFF
      modifies this, bpm
      ensures Valid() && Balanced() && bpm.numPages <= old(bpm.numPages) + 1
      ensures chain != [] && |old(bpm.pins)| + 2 <= bpm.capacity ==> ok
      ensures !ok ==> bpm.pages == old(bpm.pages) && chain == old(chain)
      ensures ok ==>
        var d, j := EncodeTuple(t), FirstRoom(old(bpm.pages), old(chain), EncodeTuple(t), 0);
        && |old(chain)| <= |chain| && chain[..|old(chain)|] == old(chain)
            && |chain| == |old(chain)| + (if j < |old(chain)| then 0 else 1)
        && rid.pageId == chain[j] && RowAdded(old(Records()), rid, d, Records())
      ensures ok ==> exists j ::
        && 0 <= j < |chain| && rid.pageId == chain[j] && (forall k :: 0 <= k < j ==>
             && k < |old(chain)| && old(chain)[k] in old(bpm.pages)
             && !Takes(old(bpm.pages)[old(chain)[k]], TotalLength(t)))
        && (j < |old(chain)| ==> chain[j] in old(bpm.pages) && Takes(old(bpm.pages)[chain[j]], TotalLength(t)))
    {
      hide PageOk, HeaderOf, CanInsert, Takes, FirstRoom, RowAdded, ChainOk, LinkOk, Rows, EncodeTuple;
      FirstTakes(bpm.pages, chain, t);
      ok, rid := InsertFirst(t);
    }

    /** The search for a page with room. */
    method InsertFirst(t: Tuple) returns (ok: bool, rid: RID)
      requires Valid() && bpm.Room(1) && |EncodeTuple(t)| + 8 <= 0xFFFF_FFFF
      modifies this, bpm
      ensures Valid() && Balanced() && bpm.numPages <= old(bpm.numPages) + 1
      ensures chain != [] && |old(bpm.pins)| + 2 <= bpm.capacity ==> ok
      ensures !ok ==> bpm.pages == old(bpm.pages) && chain == old(chain)
      ensures ok ==>
        var d, j := EncodeTuple(t), FirstRoom(old(bpm.pages), old(chain), EncodeTuple(t), 0);
        && |old(chain)| <= |chain| && chain[..|old(chain)|] == old(chain)
            && |chain| == |old(chain)| + (if j < |old(chain)| then 0 else 1)
        && rid.pageId == chain[j] && RowAdded(old(Records()), rid, d, Records())
    {
      hide PageOk, HeaderOf, CanInsert, Inserted, InsertSlot, Tuples, EncodeTuple, Rows, NextPageId, FirstRoom,
          ChainOk, LinkOk, HasRoom;
      ok, rid := false, RID(INVALID_PAGE_ID, 0);
      var curr := firstPageId;
      ghost var k := 0;
      while curr != INVALID_PAGE_ID
        invariant k <= |chain| && (k == |chain| ==> chain == [])
        invariant curr == if k < |chain| then chain[k] else INVALID_PAGE_ID
        invariant FirstRoom(bpm.pages, chain, EncodeTuple(t), 0) == FirstRoom(bpm.pages, chain, EncodeTuple(t), k)
        invariant Valid() && bpm.pages == old(bpm.pages) && bpm.pins == old(bpm.pins) && bpm.unsaved <= old(bpm.unsaved)
        invariant chain == old(chain) && bpm.numPages == old(bpm.numPages)
        decreases |chain| - k
      {
        NextInChain(bpm.pages, chain, k);
        var fetched := bpm.Fetch(curr);
        if !fetched {
          return;
        }
        DecInc(old(bpm.pins), curr);
        IncSize(old(bpm.pins), curr);
        RoomHere(bpm.pages, chain, EncodeTuple(t), k);
        if CanInsert(bpm.At(curr), EncodeTuple(t)) {
          rid := InsertInto(curr, k, t);
          return true, rid;
        }
        var next := NextPageId(bpm.At(curr));
        if next == INVALID_PAGE_ID {
          ok, rid := Extend(curr, t);
          return;
        }
        var released := bpm.Unpin(curr, false);
        curr, k := next, k + 1;
      }
      if k < |chain| {
        NextInChain(bpm.pages, chain, k);
      }
    }

    /** The pinned page `id` has room. */
    method InsertInto(id: PageId, ghost k: nat, t: Tuple) returns (rid: RID)
      requires Valid() && k < |chain| && id == chain[k] && id in bpm.pins && LinkOk(bpm.pages, chain, k)
      requires CanInsert(bpm.pages[id], EncodeTuple(t))
      modifies bpm`pages, bpm`pins, bpm`unsaved
      ensures Valid() && bpm.pages == old(bpm.pages)[id := Inserted(old(bpm.pages)[id], EncodeTuple(t))]
      ensures bpm.pins == Dec(old(bpm.pins), id) && bpm.unsaved <= old(bpm.unsaved)
      ensures rid == RID(id, InsertSlot(old(bpm.pages)[id]))
      ensures RowAdded(old(Records()), rid, EncodeTuple(t), Records())
    {
      hide PageOk, HeaderOf, CanInsert, Inserted, InsertSlot, Tuples, EncodeTuple;
      var page, d := bpm.At(id), EncodeTuple(t);
      InsertRefines(page, d);
      ChainKept(bpm.pages, chain, k, Inserted(page, d));
      RowsChanged(bpm.pages, chain, id, Inserted(page, d), InsertSlot(page), d);
      bpm.Put(id, Inserted(page, d));
      var released := bpm.Unpin(id, true);
      rid := RID(id, InsertSlot(page));
      RoomBound(page, d);
      assert old(Records()) - {rid} == old(Records());
    }

    /** No page has room: a new page follows the last one, and takes the tuple if it is not too long. */
    method Extend(last: PageId, t: Tuple) returns (ok: bool, rid: RID)
      requires Valid() && bpm.Room(1) && chain != [] && last == chain[|chain| - 1] && last in bpm.pins
      requires last in bpm.unsaved ==> bpm.pins[last] > 1
      modifies this`chain, bpm
      ensures Valid() && bpm.pins == Dec(old(bpm.pins), last) && bpm.unsaved <= old(bpm.unsaved)
      ensures bpm.numPages <= old(bpm.numPages) + 1
      ensures ok <==> |old(bpm.pins)| < bpm.capacity
      ensures !ok ==> bpm.pages == old(bpm.pages) && chain == old(chain)
      ensures ok ==>
        |chain| == |old(chain)| + 1 && chain[..|old(chain)|] == old(chain) && rid.pageId == chain[|old(chain)|]
      ensures forall id :: id in old(bpm.pages) && id != last ==> id in bpm.pages && bpm.pages[id] == old(bpm.pages)[id]
      ensures ok ==> RowAdded(old(Records()), rid, EncodeTuple(t), Records())
    {
      hide PageOk, HeaderOf, CanInsert, Inserted, InsertSlot, Tuples, EncodeTuple, Initial, SetU32, Rows, ChainOk,
          Extended;
      rid := RID(INVALID_PAGE_ID, 0);
      var id;
      ok, id := bpm.New();
      if !ok {
        var released := bpm.Unpin(last, false);
        return;
      }
      ReleasedBoth(old(bpm.pins), last, id);
      var slot := ExtendWith(last, id, t, old(bpm.pages));
      rid := RID(id, slot);
      var released := bpm.Unpin(last, true);
      released := bpm.Unpin(id, true);
    }

    /** The new page becomes the last one and gets the tuple. */
    method ExtendWith(last: PageId, id: PageId, t: Tuple, ghost before: Pages) returns (slot: nat)
      requires bpm.Valid() && ChainOk(before, chain) && bpm.pages == before[id := bpm.blank] && id !in before
      requires id != INVALID_PAGE_ID
      requires chain != [] && last == chain[|chain| - 1] && last in bpm.pins && id in bpm.pins && last in before
      requires firstPageId == chain[0]
      modifies this`chain, bpm`pages, bpm`unsaved
      ensures Valid() && bpm.unsaved <= old(bpm.unsaved) + {last, id} && chain == old(chain) + [id]
      ensures forall other :: other in before && other != last ==>
        other in bpm.pages && bpm.pages[other] == before[other]
      ensures RowAdded(Rows(before, old(chain)), RID(id, slot), EncodeTuple(t), Records())
    {
      hide PageOk, HeaderOf, CanInsert, Inserted, InsertSlot, Tuples, EncodeTuple, Initial, SetU32, Rows;
      Chained(last, id, before);
      assert LinkOk(bpm.pages, chain, |chain| - 1);
      slot := FillNew(id, t);
      if EncodeTuple(t) == [] {
        assert Rows(before, old(chain)) - {RID(id, slot)} == Rows(before, old(chain));
      }
    }

    /** The new page is formatted and linked. */
    method Chained(last: PageId, id: PageId, ghost before: Pages)
      requires bpm.Valid() && ChainOk(before, chain) && bpm.pages == before[id := bpm.blank] && id !in before
      requires id != INVALID_PAGE_ID
      requires chain != [] && last == chain[|chain| - 1] && last in bpm.pins && id in bpm.pins && last in before
      modifies this`chain, bpm`pages, bpm`unsaved
      ensures bpm.Valid() && bpm.unsaved <= old(bpm.unsaved) + {last, id} && chain == old(chain) + [id]
      ensures bpm.pages == Extended(before, last, id, bpm.blank) && ChainOk(bpm.pages, chain)
      ensures Records() == Rows(before, old(chain))
    {
      hide PageOk, HeaderOf, Tuples, Initial, SetU32;
      ExtendedChain(before, chain, id, bpm.blank);
      ExtendedRows(before, chain, id, bpm.blank);
      bpm.Put(id, Initial(bpm.At(id), id, last));
      bpm.Put(last, SetU32(bpm.At(last), 16, id));
      assert bpm.pages == Extended(before, last, id, bpm.blank);
      chain := chain + [id];
    }

    /** The tuple goes to the new page; whether it fits is not looked at, nor the slot if it does not. */
    method FillNew(id: PageId, t: Tuple) returns (slot: nat)
      requires Valid() && chain != [] && id == chain[|chain| - 1] && id in bpm.pins
      requires LinkOk(bpm.pages, chain, |chain| - 1)
      requires exists blank: Page, prev :: bpm.pages[id] == Initial(blank, id, prev)
      modifies bpm`pages, bpm`unsaved
      ensures Valid() && bpm.unsaved <= old(bpm.unsaved) + {id}
      ensures bpm.pages.Keys == old(bpm.pages).Keys && forall other :: other in bpm.pages && other != id ==>
          bpm.pages[other] == old(bpm.pages)[other]
      ensures var d := EncodeTuple(t);
        if |d| <= 4068 then RID(id, slot) !in old(Records()) && Records() == WithRow(old(Records()), RID(id, slot), d)
        else Records() == old(Records())
    {
      hide PageOk, HeaderOf, CanInsert, Inserted, InsertSlot, Tuples, EncodeTuple, Initial;
      var page, d := bpm.At(id), EncodeTuple(t);
      ghost var blank: Page, prev :| page == Initial(blank, id, prev);
      FreshRoom(blank, id, prev, d);
      if CanInsert(page, d) {
        InsertRefines(page, d);
        ChainKept(bpm.pages, chain, |chain| - 1, Inserted(page, d));
        RowsChanged(bpm.pages, chain, id, Inserted(page, d), InsertSlot(page), d);
        bpm.Put(id, Inserted(page, d));
        slot := InsertSlot(page);
      } else {
        slot := *;
      }
    }

    /** Fails on an id without a tuple, and when every frame holds another pinned page. */
    method GetTuple(rid: RID, schema: Schema, ghost t: Tuple) returns (ok: bool, r: Tuple)
      requires Valid() && (rid.pageId in chain || rid.pageId == INVALID_PAGE_ID)
      requires rid in Records() ==> Matches(t, schema) && Records()[rid] == EncodeTuple(t)
      modifies bpm`pins, bpm`unsaved
      ensures Valid() && Balanced() && bpm.pages == old(bpm.pages)
      ensures ok <==> rid in Records() && (rid.pageId in bpm.pins || |bpm.pins| < bpm.capacity)
      ensures ok ==> r == t
    {
      hide PageOk, HeaderOf, Tuples, EncodeTuple, DecodeTuple;
      r := [];
      InChain(bpm.pages, chain, rid.pageId);
      ok := bpm.Fetch(rid.pageId);
      if !ok {
        return;
      }
      DecInc(old(bpm.pins), rid.pageId);
      ok, r := ReadRow(bpm.At(rid.pageId), rid.slotNum, schema, t);
      var released := bpm.Unpin(rid.pageId, false);
    }

    /** The tuple is replaced; fails on an id without a tuple, for want of room, or for want of a frame. */
    method UpdateTuple(rid: RID, t: Tuple) returns (ok: bool)
      requires Valid() && (rid.pageId in chain || rid.pageId == INVALID_PAGE_ID)
      modifies bpm`pages, bpm`pins, bpm`unsaved
      ensures Valid() && Balanced()
      ensures ok <==>
        && rid in old(Records()) && (rid.pageId in old(bpm.pins) || |old(bpm.pins)| < bpm.capacity)
        && (TotalLength(t) <= |old(Records())[rid]| || TotalLength(t) <= Space(old(bpm.pages), rid.pageId))
      ensures Records() == if ok then WithRow(old(Records()), rid, EncodeTuple(t)) else old(Records())
    {
      hide PageOk, HeaderOf, Tuples, EncodeTuple, Updated, CanUpdate, ChainOk, LinkOk, Rows, Space;
      MayUpdateIs(bpm.pages, chain, rid, t);
      InChain(bpm.pages, chain, rid.pageId);
      ok := bpm.Fetch(rid.pageId);
      if !ok {
        return;
      }
      DecInc(old(bpm.pins), rid.pageId);
      var page := bpm.At(rid.pageId);
      var c;
      ok, c := ChangedRow(page, rid.slotNum, t);
      if ok {
        UpdateRefines(page, rid.slotNum, EncodeTuple(t));
        RowChanged(bpm.pages, chain, rid, c, EncodeTuple(t));
        bpm.Put(rid.pageId, c);
      }
      var released := bpm.Unpin(rid.pageId, ok);
    }

    /** The tuple is removed; fails on an id without a tuple, and for want of a frame. */
    method DeleteTuple(rid: RID) returns (ok: bool)
      requires Valid() && (rid.pageId in chain || rid.pageId == INVALID_PAGE_ID)
      modifies bpm`pages, bpm`pins, bpm`unsaved
      ensures Valid() && Balanced()
      ensures ok <==> rid in old(Records()) && (rid.pageId in old(bpm.pins) || |old(bpm.pins)| < bpm.capacity)
      ensures Records() == if ok then old(Records()) - {rid} else old(Records())
    {
      hide PageOk, HeaderOf, Tuples, Deleted, ChainOk, LinkOk;
      InChain(bpm.pages, chain, rid.pageId);
      ok := bpm.Fetch(rid.pageId);
      if !ok {
        return;
      }
      DecInc(old(bpm.pins), rid.pageId);
      var page := bpm.At(rid.pageId);
      ok := IsLive(page, rid.slotNum);
      LiveRow(bpm.pages, chain, rid);
      if ok {
        DeleteRefines(page, rid.slotNum);
        RowChanged(bpm.pages, chain, rid, Deleted(page, rid.slotNum), []);
        bpm.Put(rid.pageId, Deleted(page, rid.slotNum));
      }
      var released := bpm.Unpin(rid.pageId, ok);
    }
  }

  // ---- one row ----

  /** The slot exists and is not deleted. */
  predicate IsLive(b: Page, slot: nat)
    requires PageOk(b)
    ensures IsLive(b, slot) ==> slot < NumSlots(b)
  {
    slot < NumSlots(b) && HeaderOf(b).slots[slot].length != 0
  }

  lemma InChain(pages: Pages, chain: seq<PageId>, id: PageId)
    requires ChainOk(pages, chain)
    ensures id in chain ==> id in pages && PageOk(pages[id]) && id != INVALID_PAGE_ID
  {
    if id in chain {
      var k :| 0 <= k < |chain| && chain[k] == id;
      assert LinkOk(pages, chain, k);
    }
  }

  lemma LiveRow(pages: Pages, chain: seq<PageId>, rid: RID)
    requires rid.pageId in chain && rid.pageId in pages && PageOk(pages[rid.pageId])
    ensures IsLive(pages[rid.pageId], rid.slotNum) <==> rid in Rows(pages, chain)
    ensures IsLive(pages[rid.pageId], rid.slotNum) <==> rid.slotNum in Tuples(pages[rid.pageId])
    ensures rid in Rows(pages, chain) ==> Rows(pages, chain)[rid] == Tuples(pages[rid.pageId])[rid.slotNum]
  {
  }

  /** The page of a row changes as a table page operation changes it. */
  lemma RowChanged(pages: Pages, chain: seq<PageId>, rid: RID, c: Page, d: Bytes)
    requires ChainOk(pages, chain) && rid.pageId in chain && rid.pageId in pages && PageOk(pages[rid.pageId])
    requires PageOk(c) && SameLinks(HeaderOf(pages[rid.pageId]), HeaderOf(c))
    requires Tuples(c) == Holding(Tuples(pages[rid.pageId]), rid.slotNum, d)
    ensures ChainOk(pages[rid.pageId := c], chain)
    ensures Rows(pages[rid.pageId := c], chain) == WithRow(Rows(pages, chain), rid, d)
  {
    hide PageOk, HeaderOf, Tuples;
    var k :| 0 <= k < |chain| && chain[k] == rid.pageId;
    assert LinkOk(pages, chain, k);
    ChainKept(pages, chain, k, c);
    RowsChanged(pages, chain, rid.pageId, c, rid.slotNum, d);
  }

  method ReadRow(b: Page, slot: nat, schema: Schema, ghost t: Tuple) returns (ok: bool, r: Tuple)
    requires PageOk(b)
    requires slot in Tuples(b) ==> Matches(t, schema) && Tuples(b)[slot] == EncodeTuple(t)
    ensures (ok <==> slot in Tuples(b)) && (ok ==> r == t)
  {
    ok, r := IsLive(b, slot), [];
    if ok {
      var at := HeaderOf(b).slots[slot].offset;
      TupleRoundTrip(t, schema, b, at);
      r := Deserialize(b, at, schema);
    }
  }

  method ChangedRow(b: Page, slot: nat, t: Tuple) returns (ok: bool, c: Page)
    requires PageOk(b)
    ensures ok <==> CanUpdate(b, slot, EncodeTuple(t))
    ensures ok ==> c == Updated(b, slot, EncodeTuple(t))
  {
    hide EncodeTuple;
    var d := EncodeTuple(t);
    ok, c := IsLive(b, slot), b;
    if ok {
      if |d| <= HeaderOf(b).slots[slot].length {
        c := Overwritten(b, slot, d);
      } else {
        ok := RoomFor(HeaderOf(b).slots, HeaderOf(b).free, slot, d);
        if ok {
          c := Place(b, slot, d);
        }
      }
    }
  }

  /** The first page with room, over the fields of the pages. */
  lemma FirstTakes(pages: Pages, chain: seq<PageId>, t: Tuple)
    requires ChainOk(pages, chain)
    ensures var j, n := FirstRoom(pages, chain, EncodeTuple(t), 0), TotalLength(t);
      && (forall k :: 0 <= k < j ==> chain[k] in pages && !Takes(pages[chain[k]], n))
      && (j < |chain| ==> chain[j] in pages && Takes(pages[chain[j]], n))
  {
    hide PageOk, HeaderOf, CanInsert, Takes;
    EncodeTupleIs(t);
    forall k | 0 <= k < |chain|
      ensures chain[k] in pages
      ensures HasRoom(pages, chain[k], EncodeTuple(t)) <==> Takes(pages[chain[k]], TotalLength(t))
    {
      assert LinkOk(pages, chain, k);
      CanInsertIs(pages[chain[k]], EncodeTuple(t));
    }
  }

  /** The bytes between the slots and the tuples of a page. */
  ghost function Space(pages: Pages, id: PageId): int {
    if id in pages then GetU32(pages[id], 8) - (20 + 8 * GetU32(pages[id], 4)) else 0
  }

  lemma MayUpdateIs(pages: Pages, chain: seq<PageId>, rid: RID, t: Tuple)
    requires ChainOk(pages, chain)
    ensures MayUpdate(pages, chain, rid, EncodeTuple(t)) <==>
      && rid in Rows(pages, chain)
      && (TotalLength(t) <= |Rows(pages, chain)[rid]| || TotalLength(t) <= Space(pages, rid.pageId))
  {
    hide HeaderOf, GetU32, PageOk;
    EncodeTupleIs(t);
    if rid.pageId in chain && rid.pageId in pages && PageOk(pages[rid.pageId]) {
      CanUpdateIs(pages[rid.pageId], rid.slotNum, EncodeTuple(t));
      SlotFields(pages[rid.pageId], rid.slotNum);
    }
  }

  ghost predicate MayUpdate(pages: Pages, chain: seq<PageId>, rid: RID, d: Bytes) {
    rid.pageId in chain && rid.pageId in pages && PageOk(pages[rid.pageId])
        && CanUpdate(pages[rid.pageId], rid.slotNum, d)
  }
}

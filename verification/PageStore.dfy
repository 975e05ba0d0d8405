/**
 The page store as its clients see it: contents and pin counts of the live pages, and a bounded number
 of frames. BufferPool.dfy proves that the buffer pool manager implements these operations.
 */
module PageStores {
  import opened Types

  /** Pin counts of the pinned pages; the number of entries is the number of frames held. */
  type Pins = map<PageId, Pos>

  function PinCount(pins: Pins, id: PageId): nat {
    if id in pins then pins[id] else 0
  }

  function Inc(pins: Pins, id: PageId): Pins {
    pins[id := PinCount(pins, id) + 1]
  }

  function Dec(pins: Pins, id: PageId): Pins
    requires id in pins
  {
    if pins[id] == 1 then pins - {id} else pins[id := pins[id] - 1]
  }

  lemma DecInc(pins: Pins, id: PageId)
    ensures Dec(Inc(pins, id), id) == pins
  {
    if id !in pins {
      assert Inc(pins, id) - {id} == pins;
    }
  }

  lemma IncSize(pins: Pins, id: PageId)
    ensures |pins| <= |Inc(pins, id)| <= |pins| + 1
  {
    assert Inc(pins, id).Keys == pins.Keys + {id};
    assert |Inc(pins, id)| == |Inc(pins, id).Keys| && |pins| == |pins.Keys|;
  }

  // ---- the contract shared with the buffer pool manager ----

  /** What a client can observe. */
  datatype Store<D> = Store(capacity: nat, pages: map<PageId, D>, pins: Pins, unsaved: set<PageId>)

  ghost predicate Fetches<D>(s: Store<D>, id: PageId, ok: bool, t: Store<D>) {
    && (ok <==> id != INVALID_PAGE_ID && (id in s.pins || |s.pins| < s.capacity))
    && t == s.(pins := if ok then Inc(s.pins, id) else s.pins)
  }

  ghost predicate Unpins<D>(s: Store<D>, id: PageId, dirty: bool, ok: bool, t: Store<D>) {
    && (ok <==> id in s.pins)
    && t == s.(pins := if ok then Dec(s.pins, id) else s.pins, unsaved := if dirty then s.unsaved - {id} else s.unsaved)
  }

  ghost predicate Creates<D>(s: Store<D>, blank: D, ok: bool, id: PageId, t: Store<D>) {
    && (ok <==> |s.pins| < s.capacity)
    && if ok then
         && id !in s.pages && id != INVALID_PAGE_ID && id != 0
         && t == s.(pages := s.pages[id := blank], pins := Inc(s.pins, id), unsaved := s.unsaved + {id})
       else
         id == INVALID_PAGE_ID && t == s
  }

  ghost predicate Deletes<D>(s: Store<D>, id: PageId, ok: bool, t: Store<D>) {
    && (ok <==> id !in s.pins)
    && t == s.(pages := if ok then s.pages - {id} else s.pages)
  }

  /** A holder changes the page; whoever does owes a release as dirty. */
  ghost predicate Writes<D>(s: Store<D>, id: PageId, d: D, t: Store<D>) {
    && t == s.(pages := s.pages[id := d], unsaved := t.unsaved)
    && s.unsaved <= t.unsaved <= s.unsaved + {id}
    && (id in s.pages && d != s.pages[id] ==> id in t.unsaved)
  }

  class PageStore<D(==)> {
    const capacity: nat
    const blank: D
    var pages: map<PageId, D>
    var pins: Pins
    /** Pages changed through a pin since somebody last released them as dirty. */
    ghost var unsaved: set<PageId>
    var numPages: nat

    ghost predicate Valid()
      reads this
    {
      && pins.Keys <= pages.Keys
      && unsaved <= pins.Keys
      && 1 <= numPages <= INVALID_PAGE_ID
      && (forall id :: id in pages ==> 1 <= id < numPages)
    }

    ghost function View(): Store<D>
      reads this
    {
      Store(capacity, pages, pins, unsaved)
    }

    /** At least `n` more page ids can be handed out. */
    ghost predicate Room(n: nat)
      reads this`numPages
    {
      numPages + n <= INVALID_PAGE_ID
    }

    constructor (capacity: nat, blank: D)
      ensures Valid() && this.capacity == capacity && this.blank == blank
      ensures pages == map[] && pins == map[] && unsaved == {} && numPages == 1
    {
      this.capacity, this.blank := capacity, blank;
      pages, pins, unsaved, numPages := map[], map[], {}, 1;
    }

    /** The contents of a page, readable while it is pinned. */
    function At(id: PageId): D
      requires id in pins && id in pages
      reads this`pages, this`pins
    {
      pages[id]
    }

    /** The page is pinned, unless every frame holds another pinned page. */
    method Fetch(id: PageId) returns (ok: bool)
      requires Valid() && (id in pages || id == INVALID_PAGE_ID)
      modifies this`pins
      ensures Valid()
      ensures ok <==> id != INVALID_PAGE_ID && (id in old(pins) || |old(pins)| < capacity)
      ensures pins == if ok then Inc(old(pins), id) else old(pins)
    {
      ok := id != INVALID_PAGE_ID && (id in pins || |pins| < capacity);
      if ok {
        pins := Inc(pins, id);
      }
    }

    /** One pin is dropped; whoever changed the page must say so before the last pin goes. */
    method Unpin(id: PageId, dirty: bool) returns (ok: bool)
      requires Valid()
      requires dirty || id !in unsaved || PinCount(pins, id) > 1
      modifies this`pins, this`unsaved
      ensures Valid()
      ensures ok <==> id in old(pins)
      ensures pins == if ok then Dec(old(pins), id) else old(pins)
      ensures unsaved == if dirty then old(unsaved) - {id} else old(unsaved)
    {
      ok := id in pins;
      if ok {
        pins := Dec(pins, id);
      }
      if dirty {
        unsaved := unsaved - {id};
      }
    }

    /**
     A blank page under a fresh id, pinned once; fails only when every frame is pinned.
     Clients may rely on freshness only: the disk manager also hands out ids of deleted pages.
     */
    method New() returns (ok: bool, id: PageId)
      requires Valid() && Room(1)
      modifies this`pages, this`pins, this`unsaved, this`numPages
      ensures Valid() && numPages <= old(numPages) + 1
      ensures ok <==> |old(pins)| < capacity
      ensures ok ==> id !in old(pages) && id != INVALID_PAGE_ID && id != 0
      ensures ok ==> pages == old(pages)[id := blank] && pins == Inc(old(pins), id) && unsaved == old(unsaved) + {id}
      ensures !ok ==> id == INVALID_PAGE_ID && pages == old(pages) && pins == old(pins) && unsaved == old(unsaved)
    {
      ok, id := |pins| < capacity, INVALID_PAGE_ID;
      if ok {
        id, numPages := numPages, numPages + 1;
        pages, pins, unsaved := pages[id := blank], Inc(pins, id), unsaved + {id};
      }
    }

    /** A pinned page cannot be deleted. */
    method Delete(id: PageId) returns (ok: bool)
      requires Valid() && id in pages
      modifies this`pages
      ensures Valid()
      ensures ok <==> id !in pins
      ensures pages == if ok then old(pages) - {id} else old(pages)
    {
      ok := id !in pins;
      if ok {
        pages := pages - {id};
      }
    }

    /** Writing through a pinned page. */
    method Put(id: PageId, d: D)
      requires Valid() && id in pins
      modifies this`pages, this`unsaved
      ensures Valid()
      ensures pages == old(pages)[id := d]
      ensures unsaved == if d == old(pages)[id] then old(unsaved) else old(unsaved) + {id}
    {
      if d != pages[id] {
        unsaved := unsaved + {id};
      }
      pages := pages[id := d];
    }
  }

  // The operations of the store meet the shared contract.

  method FetchMeets<D(==)>(store: PageStore<D>, id: PageId) returns (ok: bool)
    requires store.Valid() && (id in store.pages || id == INVALID_PAGE_ID)
    modifies store
    ensures store.Valid() && Fetches(old(store.View()), id, ok, store.View())
  {
    ok := store.Fetch(id);
  }

  method UnpinMeets<D(==)>(store: PageStore<D>, id: PageId, dirty: bool) returns (ok: bool)
    requires store.Valid() && (dirty || id !in store.unsaved || PinCount(store.pins, id) > 1)
    modifies store
    ensures store.Valid() && Unpins(old(store.View()), id, dirty, ok, store.View())
  {
    ok := store.Unpin(id, dirty);
  }

  method NewMeets<D(==)>(store: PageStore<D>) returns (ok: bool, id: PageId)
    requires store.Valid() && store.Room(1)
    modifies store
    ensures store.Valid() && Creates(old(store.View()), store.blank, ok, id, store.View())
  {
    ok, id := store.New();
  }

  method DeleteMeets<D(==)>(store: PageStore<D>, id: PageId) returns (ok: bool)
    requires store.Valid() && id in store.pages
    modifies store
    ensures store.Valid() && Deletes(old(store.View()), id, ok, store.View())
  {
    ok := store.Delete(id);
  }

  method PutMeets<D(==)>(store: PageStore<D>, id: PageId, d: D)
    requires store.Valid() && id in store.pins
    modifies store
    ensures store.Valid() && Writes(old(store.View()), id, d, store.View())
  {
    store.Put(id, d);
  }
}

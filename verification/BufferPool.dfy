/** A write-back page cache over the disk manager (buffer_pool_manager.cpp). */
module BufferPools {
  import opened Types
  import opened ByteCodes
  import opened Replacers
  import opened DiskManagers
  import opened PageStores

  datatype Frame = Frame(data: Bytes, pageId: PageId, pinCount: nat, isDirty: bool)

  /** ResetMemory. */
  const BLANK_FRAME := Frame(Zeros(PAGE_SIZE), INVALID_PAGE_ID, 0, false)

  type Table = map<PageId, FrameId>

  ghost predicate Cached(fr: seq<Frame>, table: Table, f: FrameId) {
    f < |fr| && fr[f].pageId in table && table[fr[f].pageId] == f
  }

  /**
   Each frame but `spare` is either free or caches one page, the page table leads to the frames of the cached
   pages, and the candidates for eviction are the cached frames nobody has pinned.
   */
  ghost predicate Consistent(fr: seq<Frame>, table: Table, free: seq<FrameId>, candidates: set<FrameId>, spare: int) {
    && INVALID_PAGE_ID !in table
    && (forall id :: id in table ==> table[id] < |fr| && table[id] != spare && fr[table[id]].pageId == id)
    && (forall i :: 0 <= i < |free| ==> free[i] < |fr| && free[i] != spare && fr[free[i]].pageId == INVALID_PAGE_ID)
    && (forall i, j :: 0 <= i < j < |free| ==> free[i] != free[j])
    && (forall f: FrameId :: f < |fr| && f != spare ==> f in free || Cached(fr, table, f))
    && (forall f: FrameId :: f in candidates <==> Cached(fr, table, f) && fr[f].pinCount == 0)
    && (forall f: FrameId :: f < |fr| ==> |fr[f].data| == PAGE_SIZE)
  }

  /** Every frame is free, or evictable, or pinned, and just one of these; no two pages share a frame. */
  lemma FramesPartition(fr: seq<Frame>, table: Table, free: seq<FrameId>, candidates: set<FrameId>, f: FrameId)
    requires Consistent(fr, table, free, candidates, -1) && f < |fr|
    ensures f in free || f in candidates || (Cached(fr, table, f) && fr[f].pinCount > 0)
    ensures f in free ==> f !in candidates && !Cached(fr, table, f)
    ensures f in candidates ==> Cached(fr, table, f) && fr[f].pinCount == 0
    ensures forall a, b :: a in table && b in table && table[a] == table[b] ==> a == b
  {
    if f in free {
      var i :| 0 <= i < |free| && free[i] == f;
      assert fr[free[i]].pageId == INVALID_PAGE_ID;
    }
    forall a, b | a in table && b in table && table[a] == table[b]
      ensures a == b
    {
      assert fr[table[a]].pageId == a;
    }
  }

  /** What a client sees: the frame if the page is cached, else the disk. */
  ghost function Visible(fr: seq<Frame>, table: Table, disk: map<PageId, Bytes>): map<PageId, Bytes>
    requires forall id :: id in table ==> table[id] < |fr|
  {
    map id | id in disk :: if id in table then fr[table[id]].data else disk[id]
  }

  ghost function PinsOf(fr: seq<Frame>, table: Table): Pins
    requires forall id :: id in table ==> table[id] < |fr|
  {
    map id | id in table && fr[table[id]].pinCount > 0 :: fr[table[id]].pinCount
  }

  /** A clean frame agrees with the disk, unless a holder has changed it and not said so yet. */
  ghost predicate Saved(fr: seq<Frame>, table: Table, disk: map<PageId, Bytes>, unsaved: set<PageId>)
    requires forall id :: id in table ==> table[id] < |fr|
  {
    && table.Keys <= disk.Keys
    && forall id :: id in table && !fr[table[id]].isDirty && id !in unsaved ==> fr[table[id]].data == disk[id]
  }

  // ---- counting frames ----

  function Range(n: nat): (s: set<FrameId>)
    ensures |s| == n && forall f: FrameId :: f in s <==> f < n
  {
    if n == 0 then {} else Range(n - 1) + {n - 1}
  }

  ghost function PagesIn(fr: seq<Frame>, frames: set<FrameId>): set<PageId>
    requires forall f :: f in frames ==> f < |fr|
  {
    set f | f in frames :: fr[f].pageId
  }

  /** Frames with different pages hold as many pages as there are frames. */
  lemma {:induction false} PagesInSize(fr: seq<Frame>, frames: set<FrameId>)
    requires forall f :: f in frames ==> f < |fr|
    requires forall f, g :: f in frames && g in frames && fr[f].pageId == fr[g].pageId ==> f == g
    ensures |PagesIn(fr, frames)| == |frames|
    decreases |frames|
  {
    if f :| f in frames {
      PagesInSize(fr, frames - {f});
      assert fr[f].pageId !in PagesIn(fr, frames - {f});
      assert PagesIn(fr, frames) == PagesIn(fr, frames - {f}) + {fr[f].pageId};
    }
  }

  ghost function Pinned(fr: seq<Frame>, table: Table): (s: set<FrameId>)
    ensures s <= Range(|fr|)
  {
    set f: FrameId | f in Range(|fr|) && Cached(fr, table, f) && fr[f].pinCount > 0
  }

  /** As many frames are pinned as pages. */
  lemma PinnedFrames(fr: seq<Frame>, table: Table, free: seq<FrameId>, candidates: set<FrameId>)
    requires Consistent(fr, table, free, candidates, -1)
    ensures |PinsOf(fr, table)| == |Pinned(fr, table)|
  {
    var pins, pinned := PinsOf(fr, table), Pinned(fr, table);
    PagesInSize(fr, pinned);
    forall id | id in pins.Keys
      ensures id in PagesIn(fr, pinned)
    {
      assert Cached(fr, table, table[id]) && table[id] in pinned;
    }
    assert pins.Keys == PagesIn(fr, pinned);
    assert |pins| == |pins.Keys|;
  }

  /** All frames are pinned exactly when as many pages are pinned as there are frames. */
  lemma AllPinned(fr: seq<Frame>, table: Table, free: seq<FrameId>, candidates: set<FrameId>)
    requires Consistent(fr, table, free, candidates, -1)
    ensures |PinsOf(fr, table)| <= |fr|
    ensures free == [] && candidates == {} <==> |PinsOf(fr, table)| == |fr|
  {
    PinnedFrames(fr, table, free, candidates);
    SubsetSizes(Pinned(fr, table), Range(|fr|));
    if free != [] {
      assert free[0] in Range(|fr|) && free[0] !in Pinned(fr, table);
    } else if f :| f in candidates {
      assert f in Range(|fr|) && f !in Pinned(fr, table);
    } else {
      forall f | f in Range(|fr|)
        ensures f in Pinned(fr, table)
      {
        assert Cached(fr, table, f) && f !in candidates;
      }
      assert Pinned(fr, table) == Range(|fr|);
    }
  }

  lemma SubsetSizes(a: set<FrameId>, b: set<FrameId>)
    requires a <= b
    ensures |a| <= |b| && (a != b ==> |a| < |b|)
  {
    assert b == a + (b - a);
  }

  // ---- single steps of the operations, on values ----

  /** A cached frame changes its pin count, contents or dirty flag. */
  lemma Touch(fr: seq<Frame>, table: Table, free: seq<FrameId>, candidates: set<FrameId>, id: PageId, n: Frame)
    requires Consistent(fr, table, free, candidates, -1) && id in table && n.pageId == id && |n.data| == PAGE_SIZE
    ensures Consistent(fr[table[id] := n], table, free,
                       if n.pinCount == 0 then candidates + {table[id]} else candidates - {table[id]}, -1)
  {
    var f := table[id];
    var fr2 := fr[f := n];
    assert forall g: FrameId :: Cached(fr2, table, g) <==> Cached(fr, table, g);
    assert Cached(fr, table, f);
  }

  lemma TouchPins(fr: seq<Frame>, table: Table, free: seq<FrameId>, candidates: set<FrameId>, id: PageId, n: Frame)
    requires Consistent(fr, table, free, candidates, -1) && id in table && n.pageId == id
    ensures PinsOf(fr[table[id] := n], table) ==
            if n.pinCount == 0 then PinsOf(fr, table) - {id} else PinsOf(fr, table)[id := n.pinCount]
  {
    assert forall other :: other in table && table[other] == table[id] ==> other == id;
  }

  /** The first free frame is taken. */
  lemma TakeFree(fr: seq<Frame>, table: Table, free: seq<FrameId>, candidates: set<FrameId>)
    requires Consistent(fr, table, free, candidates, -1) && free != []
    ensures Consistent(fr, table, free[1..], candidates, free[0])
  {
    var rest := free[1..];
    assert forall i :: 0 <= i < |rest| ==> rest[i] == free[i + 1];
    forall f: FrameId | f < |fr| && f != free[0]
      ensures f in rest || Cached(fr, table, f)
    {
      if f in free {
        var i :| 0 <= i < |free| && free[i] == f;
        assert rest[i - 1] == f;
      }
    }
  }

  /** What evicting the page in frame `f` leaves on disk. */
  function WrittenBack(n: Frame, disk: map<PageId, Bytes>): map<PageId, Bytes> {
    if n.isDirty then disk[n.pageId := n.data] else disk
  }

  /** An unpinned page is evicted. */
  lemma Evict(fr: seq<Frame>, table: Table, free: seq<FrameId>, candidates: set<FrameId>, f: FrameId)
    requires Consistent(fr, table, free, candidates, -1) && f in candidates
    ensures f < |fr| && fr[f].pageId in table
    ensures Consistent(fr[f := fr[f].(isDirty := false)], table - {fr[f].pageId}, free, candidates - {f}, f)
    ensures PinsOf(fr[f := fr[f].(isDirty := false)], table - {fr[f].pageId}) == PinsOf(fr, table)
  {
    var fr2, table2 := fr[f := fr[f].(isDirty := false)], table - {fr[f].pageId};
    assert Cached(fr, table, f);
    assert forall g: FrameId :: Cached(fr2, table2, g) <==> Cached(fr, table, g) && g != f;
  }

  /** Eviction is invisible. */
  lemma EvictVisible(fr: seq<Frame>, table: Table, free: seq<FrameId>, candidates: set<FrameId>, f: FrameId,
                     disk: map<PageId, Bytes>, unsaved: set<PageId>)
    requires Consistent(fr, table, free, candidates, -1) && f in candidates
    requires Saved(fr, table, disk, unsaved) && unsaved <= PinsOf(fr, table).Keys
    ensures f < |fr|
    ensures var fr2, table2, disk2 := fr[f := fr[f].(isDirty := false)], table - {fr[f].pageId},
        WrittenBack(fr[f], disk);
      && Visible(fr2, table2, disk2) == Visible(fr, table, disk) && Saved(fr2, table2, disk2, unsaved)
  {
    assert Cached(fr, table, f);
    AloneInFrame(fr, table, free, candidates, fr[f].pageId);
    hide Consistent;
    assert fr[f].pageId !in unsaved;
  }

  lemma AloneInFrame(fr: seq<Frame>, table: Table, free: seq<FrameId>, candidates: set<FrameId>, id: PageId)
    requires Consistent(fr, table, free, candidates, -1) && id in table
    ensures forall other :: other in table ==> table[other] < |fr| && (table[other] == table[id] ==> other == id)
  {
  }

  /** A page moves into the spare frame, pinned once. */
  lemma Install(fr: seq<Frame>, table: Table, free: seq<FrameId>, candidates: set<FrameId>, f: FrameId, id: PageId,
                data: Bytes)
    requires Consistent(fr, table, free, candidates, f) && f < |fr| && id != INVALID_PAGE_ID && id !in table
        && |data| == PAGE_SIZE
    ensures Consistent(fr[f := Frame(data, id, 1, false)], table[id := f], free, candidates - {f}, -1)
    ensures PinsOf(fr[f := Frame(data, id, 1, false)], table[id := f]) == Inc(PinsOf(fr, table), id)
  {
    var fr2, table2 := fr[f := Frame(data, id, 1, false)], table[id := f];
    forall g: FrameId
      ensures Cached(fr2, table2, g) <==> (g == f || (g != f && Cached(fr, table, g)))
    {
    }
    assert !Cached(fr, table, f);
  }

  /** An unpinned page is dropped and its frame becomes free. */
  lemma Drop(fr: seq<Frame>, table: Table, free: seq<FrameId>, candidates: set<FrameId>, id: PageId)
    requires Consistent(fr, table, free, candidates, -1) && id in table && fr[table[id]].pinCount == 0
    ensures Consistent(fr[table[id] := BLANK_FRAME], table - {id}, free + [table[id]], candidates - {table[id]}, -1)
  {
    var f := table[id];
    var fr2, table2, free2 := fr[f := BLANK_FRAME], table - {id}, free + [f];
    assert free2[|free|] == f;
    assert forall g: FrameId :: Cached(fr2, table2, g) <==> Cached(fr, table, g) && g != f;
    assert f !in free;
    assert forall g :: g in free ==> g in free2;
  }

  lemma DropPins(fr: seq<Frame>, table: Table, free: seq<FrameId>, candidates: set<FrameId>, id: PageId)
    requires Consistent(fr, table, free, candidates, -1) && id in table && fr[table[id]].pinCount == 0
    ensures PinsOf(fr[table[id] := BLANK_FRAME], table - {id}) == PinsOf(fr, table)
  {
    assert forall other :: other in table && table[other] == table[id] ==> other == id;
  }

  // ---- the whole pool as a value ----

  /** The fields of the pool, with the replacer reduced to its candidates. */
  datatype Pool = Pool(frames: seq<Frame>, table: Table, free: seq<FrameId>, candidates: set<FrameId>,
      unsaved: set<PageId>) {

    ghost predicate Mapped() {
      forall id :: id in table ==> table[id] < |frames|
    }

    ghost predicate Ok(disk: map<PageId, Bytes>, spare: int) {
      && Consistent(frames, table, free, candidates, spare)
      && Saved(frames, table, disk, unsaved)
      && unsaved <= PinsOf(frames, table).Keys
    }

    ghost function Contents(disk: map<PageId, Bytes>): map<PageId, Bytes>
      requires Mapped()
    {
      Visible(frames, table, disk)
    }

    ghost function Pins(): Pins
      requires Mapped()
    {
      PinsOf(frames, table)
    }
  }

  /** Pages pinned in `p` are in the same frames in `q`. */
  ghost predicate InPlace(p: Pool, q: Pool)
    requires p.Mapped()
  {
    forall id :: id in p.Pins() ==> id in q.table && q.table[id] == p.table[id]
  }

  function TakenFree(p: Pool): Pool
    requires p.free != []
  {
    p.(free := p.free[1..])
  }

  lemma TakeFreeStep(p: Pool, disk: map<PageId, Bytes>)
    requires p.Ok(disk, -1) && p.free != []
    ensures var q := TakenFree(p);
      q.Ok(disk, p.free[0]) && q.Contents(disk) == p.Contents(disk) && q.Pins() == p.Pins() && InPlace(p, q)
  {
    TakeFree(p.frames, p.table, p.free, p.candidates);
  }

  function Evicted(p: Pool, f: FrameId): Pool
    requires f < |p.frames|
  {
    var n := p.frames[f];
    p.(frames := p.frames[f := n.(isDirty := false)], table := p.table - {n.pageId}, candidates := p.candidates - {f})
  }

  lemma EvictStep(p: Pool, disk: map<PageId, Bytes>, f: FrameId)
    requires p.Ok(disk, -1) && f in p.candidates
    ensures f < |p.frames| && p.frames[f].pageId in disk && |p.frames[f].data| == PAGE_SIZE
    ensures var q, disk2 := Evicted(p, f), WrittenBack(p.frames[f], disk);
      q.Ok(disk2, f) && q.Contents(disk2) == p.Contents(disk) && q.Pins() == p.Pins() && InPlace(p, q)
  {
    assert Cached(p.frames, p.table, f);
    Evict(p.frames, p.table, p.free, p.candidates, f);
    EvictVisible(p.frames, p.table, p.free, p.candidates, f, disk, p.unsaved);
  }

  function Installed(p: Pool, f: FrameId, id: PageId, data: Bytes, unsaved: set<PageId>): Pool
    requires f < |p.frames|
  {
    Pool(p.frames[f := Frame(data, id, 1, false)], p.table[id := f], p.free, p.candidates - {f}, unsaved)
  }

  lemma InstallVisible(p: Pool, disk: map<PageId, Bytes>, f: FrameId, id: PageId, data: Bytes,
      disk2: map<PageId, Bytes>)
    requires p.Ok(disk, f) && f < |p.frames| && id !in p.table
    requires disk2.Keys == disk.Keys + {id} && forall other :: other in disk && other != id ==>
        disk2[other] == disk[other]
    ensures Visible(p.frames[f := Frame(data, id, 1, false)], p.table[id := f], disk2) ==
            Visible(p.frames, p.table, disk)[id := data]
  {
  }

  lemma InstallSaved(p: Pool, disk: map<PageId, Bytes>, f: FrameId, id: PageId, data: Bytes,
      disk2: map<PageId, Bytes>, unsaved: set<PageId>)
    requires p.Ok(disk, f) && f < |p.frames| && id !in p.table
    requires disk2.Keys == disk.Keys + {id} && forall other :: other in disk && other != id ==>
        disk2[other] == disk[other]
    requires p.unsaved <= unsaved && (data == disk2[id] || id in unsaved)
    ensures Saved(p.frames[f := Frame(data, id, 1, false)], p.table[id := f], disk2, unsaved)
  {
  }

  /** A page read from disk. */
  lemma ReadStep(p: Pool, disk: map<PageId, Bytes>, f: FrameId, id: PageId)
    requires p.Ok(disk, f) && f < |p.frames| && id != INVALID_PAGE_ID && id !in p.table && id in disk
        && |disk[id]| == PAGE_SIZE
    ensures var q := Installed(p, f, id, disk[id], p.unsaved);
      q.Ok(disk, -1) && q.Contents(disk) == p.Contents(disk) && q.Pins() == Inc(p.Pins(), id) && InPlace(p, q)
  {
    hide Saved;
    Install(p.frames, p.table, p.free, p.candidates, f, id, disk[id]);
    InstallVisible(p, disk, f, id, disk[id], disk);
    InstallSaved(p, disk, f, id, disk[id], disk, p.unsaved);
    assert p.Contents(disk)[id := disk[id]] == p.Contents(disk);
  }

  /** A page just allocated: blank in memory, whatever the disk has. */
  lemma NewStep(p: Pool, disk: map<PageId, Bytes>, f: FrameId, id: PageId, disk2: map<PageId, Bytes>)
    requires p.Ok(disk, f) && f < |p.frames| && id != INVALID_PAGE_ID && id !in disk
    requires disk2.Keys == disk.Keys + {id} && forall other :: other in disk ==> disk2[other] == disk[other]
    ensures var q := Installed(p, f, id, Zeros(PAGE_SIZE), p.unsaved + {id});
      && q.Ok(disk2, -1) && q.Contents(disk2) == p.Contents(disk)[id := Zeros(PAGE_SIZE)]
      && q.Pins() == Inc(p.Pins(), id) && InPlace(p, q)
  {
    Install(p.frames, p.table, p.free, p.candidates, f, id, Zeros(PAGE_SIZE));
    InstallVisible(p, disk, f, id, Zeros(PAGE_SIZE), disk2);
    InstallSaved(p, disk, f, id, Zeros(PAGE_SIZE), disk2, p.unsaved + {id});
  }

  function Touched(p: Pool, id: PageId, n: Frame, unsaved: set<PageId>): Pool
    requires id in p.table && p.table[id] < |p.frames|
  {
    var f := p.table[id];
    p.(frames := p.frames[f := n], unsaved := unsaved,
       candidates := if n.pinCount == 0 then p.candidates + {f} else p.candidates - {f})
  }

  /** Pinning, releasing, writing through a pin and flushing all change one cached frame. */
  lemma TouchStep(p: Pool, disk: map<PageId, Bytes>, id: PageId, n: Frame, disk2: map<PageId, Bytes>,
                  unsaved: set<PageId>)
    requires p.Ok(disk, -1) && id in p.table && n.pageId == id && |n.data| == PAGE_SIZE
    requires disk2.Keys == disk.Keys && forall other :: other in disk && other != id ==> disk2[other] == disk[other]
    requires !n.isDirty && id !in unsaved ==> n.data == disk2[id]
    requires forall other :: other != id ==> (other in unsaved <==> other in p.unsaved)
    requires id in unsaved ==> n.pinCount > 0
    ensures var q := Touched(p, id, n, unsaved);
      && q.Ok(disk2, -1) && q.Contents(disk2) == p.Contents(disk)[id := n.data]
      && q.Pins() == (if n.pinCount == 0 then p.Pins() - {id} else p.Pins()[id := n.pinCount])
      && InPlace(p, q)
  {
    Touch(p.frames, p.table, p.free, p.candidates, id, n);
    TouchPins(p.frames, p.table, p.free, p.candidates, id, n);
    TouchVisible(p, disk, id, n, disk2, unsaved);
  }

  lemma TouchVisible(p: Pool, disk: map<PageId, Bytes>, id: PageId, n: Frame, disk2: map<PageId, Bytes>,
                     unsaved: set<PageId>)
    requires p.Ok(disk, -1) && id in p.table && n.pageId == id
    requires disk2.Keys == disk.Keys && forall other :: other in disk && other != id ==> disk2[other] == disk[other]
    requires !n.isDirty && id !in unsaved ==> n.data == disk2[id]
    requires forall other :: other != id ==> (other in unsaved <==> other in p.unsaved)
    ensures var fr2 := p.frames[p.table[id] := n];
      && Visible(fr2, p.table, disk2) == Visible(p.frames, p.table, disk)[id := n.data]
      && Saved(fr2, p.table, disk2, unsaved)
  {
    assert forall other :: other in p.table && p.table[other] == p.table[id] ==> other == id;
  }

  /** Putting the visible contents of a cached page in place changes nothing. */
  lemma SameContents(p: Pool, disk: map<PageId, Bytes>, id: PageId)
    requires p.Ok(disk, -1) && id in p.table
    ensures p.Contents(disk)[id := p.frames[p.table[id]].data] == p.Contents(disk)
  {
    var m := p.Contents(disk);
    assert id in m && m[id] == p.frames[p.table[id]].data;
  }

  /** What is known of the frame of a cached page. */
  lemma CachedFrame(p: Pool, disk: map<PageId, Bytes>, id: PageId)
    requires p.Ok(disk, -1) && id in p.table
    ensures p.table[id] < |p.frames| && id in disk && p.Mapped()
    ensures var n := p.frames[p.table[id]];
      && n.pageId == id && |n.data| == PAGE_SIZE && n.pinCount == PinCount(p.Pins(), id)
      && (id in p.Pins() <==> n.pinCount > 0) && (id in p.unsaved ==> n.pinCount > 0)
      && (!n.isDirty && id !in p.unsaved ==> n.data == disk[id])
  {
    var n := p.frames[p.table[id]];
    assert id in p.Pins() <==> n.pinCount > 0;
  }

  /** One more pin. */
  lemma PinStep(p: Pool, disk: map<PageId, Bytes>, id: PageId, n: Frame)
    requires p.Ok(disk, -1) && id in p.table
    requires n == p.frames[p.table[id]].(pinCount := p.frames[p.table[id]].pinCount + 1)
    ensures var q := Touched(p, id, n, p.unsaved);
      q.Ok(disk, -1) && q.Contents(disk) == p.Contents(disk) && q.Pins() == Inc(p.Pins(), id) && InPlace(p, q)
  {
    hide Consistent, Saved, Visible, PinsOf, Cached, InPlace;
    CachedFrame(p, disk, id);
    TouchStep(p, disk, id, n, disk, p.unsaved);
    SameContents(p, disk, id);
  }

  lemma ReleasedPins(pins: Pins, id: PageId, left: nat)
    requires id in pins && pins[id] == left + 1
    ensures Dec(pins, id) == if left == 0 then pins - {id} else pins[id := left]
  {
  }

  /** One pin less, and perhaps a dirty flag. */
  lemma UnpinStep(p: Pool, disk: map<PageId, Bytes>, id: PageId, dirty: bool, n: Frame, unsaved: set<PageId>)
    requires p.Ok(disk, -1) && id in p.Pins() && (dirty || id !in p.unsaved || p.Pins()[id] > 1)
    requires var m := p.frames[p.table[id]]; n == m.(pinCount := m.pinCount - 1, isDirty := m.isDirty || dirty)
    requires unsaved == if dirty then p.unsaved - {id} else p.unsaved
    ensures var q := Touched(p, id, n, unsaved);
      q.Ok(disk, -1) && q.Contents(disk) == p.Contents(disk) && q.Pins() == Dec(p.Pins(), id) && InPlace(p, q)
  {
    hide Consistent, Saved, Visible, Cached, InPlace;
    CachedFrame(p, disk, id);
    ReleasedPins(p.Pins(), id, n.pinCount);
    assert forall other :: other != id ==> (other in unsaved <==> other in p.unsaved);
    TouchStep(p, disk, id, n, disk, unsaved);
    SameContents(p, disk, id);
  }

  /** memcpy into the frame of a page. */
  function Written(p: Pool, id: PageId, data: Bytes): Pool
    requires id in p.table && p.table[id] < |p.frames|
  {
    p.(frames := p.frames[p.table[id] := p.frames[p.table[id]].(data := data)], unsaved := p.unsaved + {id})
  }

  /** A holder changes the page. */
  lemma WriteStep(p: Pool, disk: map<PageId, Bytes>, id: PageId, n: Frame, data: Bytes)
    requires p.Ok(disk, -1) && id in p.Pins() && |data| == PAGE_SIZE && n == p.frames[p.table[id]].(data := data)
    ensures var q := p.(frames := p.frames[p.table[id] := n], unsaved := p.unsaved + {id});
      q.Ok(disk, -1) && q.Contents(disk) == p.Contents(disk)[id := data] && q.Pins() == p.Pins()
  {
    hide Consistent, Saved, Visible, Cached, InPlace;
    CachedFrame(p, disk, id);
    TouchStep(p, disk, id, n, disk, p.unsaved + {id});
    SameCandidates(p, disk, id);
    assert p.Pins()[id := n.pinCount] == p.Pins();
  }

  /** A cached page is written back. */
  lemma FlushStep(p: Pool, disk: map<PageId, Bytes>, id: PageId, n: Frame)
    requires p.Ok(disk, -1) && id in p.table && n == p.frames[p.table[id]].(isDirty := false)
    ensures id in disk
    ensures var q, disk2 := p.(frames := p.frames[p.table[id] := n]), disk[id := n.data];
      q.Ok(disk2, -1) && q.Contents(disk2) == p.Contents(disk) && q.Pins() == p.Pins()
  {
    hide Consistent, Saved, Visible, PinsOf, Cached, InPlace;
    CachedFrame(p, disk, id);
    TouchStep(p, disk, id, n, disk[id := n.data], p.unsaved);
    SameCandidates(p, disk, id);
    SameContents(p, disk, id);
    if n.pinCount == 0 {
      assert p.Pins() - {id} == p.Pins();
    } else {
      assert p.Pins()[id := n.pinCount] == p.Pins();
    }
  }

  /** The candidates do not change when the pin count does not. */
  lemma SameCandidates(p: Pool, disk: map<PageId, Bytes>, id: PageId)
    requires p.Ok(disk, -1) && id in p.table
    ensures var f := p.table[id];
      p.candidates == if p.frames[f].pinCount == 0 then p.candidates + {f} else p.candidates - {f}
  {
    assert Cached(p.frames, p.table, p.table[id]);
  }

  /** A cached page is pinned, or else not every frame is. */
  lemma CachedUnpinned(p: Pool, disk: map<PageId, Bytes>, id: PageId)
    requires p.Ok(disk, -1) && id in p.table
    ensures id in p.Pins() || |p.Pins()| < |p.frames|
  {
    AllPinned(p.frames, p.table, p.free, p.candidates);
    assert Cached(p.frames, p.table, p.table[id]);
  }

  function Dropped(p: Pool, id: PageId): Pool
    requires id in p.table && p.table[id] < |p.frames|
  {
    var f := p.table[id];
    p.(frames := p.frames[f := BLANK_FRAME], table := p.table - {id}, free := p.free + [f],
        candidates := p.candidates - {f})
  }

  lemma DropStep(p: Pool, disk: map<PageId, Bytes>, id: PageId)
    requires p.Ok(disk, -1) && id in p.table && p.table[id] < |p.frames| && p.frames[p.table[id]].pinCount == 0
    ensures id in disk
    ensures var q := Dropped(p, id);
      && q.Ok(disk - {id}, -1) && q.Contents(disk - {id}) == p.Contents(disk) - {id} && q.Pins() == p.Pins()
          && InPlace(p, q)
  {
    hide Consistent, Saved, Visible, Cached;
    CachedFrame(p, disk, id);
    Drop(p.frames, p.table, p.free, p.candidates, id);
    DropPins(p.frames, p.table, p.free, p.candidates, id);
    DropVisible(p, disk, id);
  }

  lemma DropVisible(p: Pool, disk: map<PageId, Bytes>, id: PageId)
    requires p.Ok(disk, -1) && id in p.table
    ensures p.table[id] < |p.frames|
    ensures var fr2 := p.frames[p.table[id] := BLANK_FRAME];
      && Visible(fr2, p.table - {id}, disk - {id}) == Visible(p.frames, p.table, disk) - {id}
      && Saved(fr2, p.table - {id}, disk - {id}, p.unsaved)
  {
    assert forall other :: other in p.table && p.table[other] == p.table[id] ==> other == id;
  }

  /** A page that is not cached disappears from the disk. */
  lemma UncachedStep(p: Pool, disk: map<PageId, Bytes>, id: PageId)
    requires p.Ok(disk, -1) && id !in p.table
    ensures p.Ok(disk - {id}, -1) && p.Contents(disk - {id}) == p.Contents(disk) - {id} && id !in p.Pins()
  {
  }

  // ---- the contracts of the operations, on values ----

  /** The pool and the disk as a page store. */
  ghost function AsStore(p: Pool, disk: map<PageId, Bytes>): Store<Bytes>
    requires p.Mapped()
  {
    Store(|p.frames|, p.Contents(disk), p.Pins(), p.unsaved)
  }

  lemma OneLess(now: set<PageId>, before: set<PageId>, rest: set<PageId>, unsaved: set<PageId>, id: PageId)
    requires now <= before <= rest + unsaved && (id in now ==> id in unsaved)
    ensures now <= (rest - {id}) + unsaved
  {
  }

  /** Frame `f` is no longer dirty. */
  function Cleaned(fr: seq<Frame>, f: FrameId): seq<Frame> {
    if f < |fr| then fr[f := fr[f].(isDirty := false)] else fr
  }

  /** No cached page but perhaps those in `except` is dirty. */
  predicate AllClean(fr: seq<Frame>, table: Table, except: set<PageId>) {
    forall id :: id in table && id !in except ==> table[id] < |fr| && !fr[table[id]].isDirty
  }

  lemma NoneClean(fr: seq<Frame>, table: Table)
    ensures AllClean(fr, table, table.Keys)
  {
  }

  lemma OneCleaner(fr: seq<Frame>, table: Table, except: set<PageId>, id: PageId)
    requires id in table && table[id] < |fr| && AllClean(fr, table, except)
    ensures AllClean(Cleaned(fr, table[id]), table, except - {id})
  {
  }

  class BufferPoolManager {
    const poolSize: nat
    const disk: DiskManager
    const pages: array<Frame>
    var replacer: Replacer
    var pageTable: Table
    var freeList: seq<FrameId>
    /** Pages changed through a pin since somebody last released them as dirty. */
    ghost var unsaved: set<PageId>

    /** The parts fit together. */
    ghost predicate Assembled()
      reads this, pages, disk
    {
      disk.Valid() && pages.Length == poolSize && replacer.Valid() && replacer.Frames() >= poolSize
    }

    ghost function View(): Pool
      requires replacer.Valid()
      reads this, pages
    {
      Pool(pages[..], pageTable, freeList, replacer.Candidates(), unsaved)
    }

    ghost predicate Valid()
      reads this, pages, disk
    {
      Assembled() && View().Ok(disk.OnDisk(), -1)
    }

    /** The live pages and their contents, wherever those are. */
    ghost function Contents(): map<PageId, Bytes>
      requires Valid()
      reads this, pages, disk
    {
      View().Contents(disk.OnDisk())
    }

    /** Pin counts of the pinned pages. */
    ghost function Pins(): Pins
      requires Valid()
      reads this, pages, disk
    {
      View().Pins()
    }

    /** The pool as a page store. */
    ghost function Seen(): Store<Bytes>
      requires Valid()
      reads this, pages, disk
    {
      AsStore(View(), disk.OnDisk())
    }

    constructor (poolSize: nat, disk: DiskManager, replacer: Replacer)
      requires disk.Valid() && replacer.Valid() && replacer.Candidates() == {} && replacer.Frames() >= poolSize
      ensures Valid() && this.poolSize == poolSize && this.disk == disk && fresh(pages)
      ensures Contents() == disk.OnDisk() && Pins() == map[] && unsaved == {} && pageTable == map[]
      ensures |freeList| == poolSize && forall i :: 0 <= i < poolSize ==> freeList[i] == i
    {
      hide Live, Chain, After, WellFormed;
      this.poolSize, this.disk, this.replacer := poolSize, disk, replacer;
      pages := new Frame[poolSize](_ => BLANK_FRAME);
      pageTable, unsaved := map[], {};
      freeList := seq(poolSize, i => i);
      new;
      forall f: FrameId | f < poolSize
        ensures f in freeList
      {
        assert freeList[f] == f;
      }
    }

    /** A frame for a new occupant: a free one, else one that held an unpinned page, written back if dirty. */
    method TakeFrame() returns (ok: bool, f: FrameId)
      requires Valid()
      modifies this`replacer, this`pageTable, this`freeList, pages, disk`file, disk`writes
      ensures Assembled() && unsaved == old(unsaved)
      ensures ok <==> |old(Pins())| < poolSize
      ensures !ok ==> View() == old(View()) && disk.OnDisk() == old(disk.OnDisk())
      ensures ok ==> f < poolSize && View().Ok(disk.OnDisk(), f)
      ensures View().Mapped() && View().Contents(disk.OnDisk()) == old(Contents())
      ensures View().Pins() == old(Pins()) && InPlace(old(View()), View())
      ensures pageTable.Keys <= old(pageTable).Keys && disk.OnDisk().Keys == old(disk.OnDisk()).Keys
      ensures disk.free == old(disk.free) && disk.numPages == old(disk.numPages)
      ensures old(freeList) != [] ==>
        && f == old(freeList)[0] && freeList == old(freeList)[1..] && pageTable == old(pageTable)
        && replacer == old(replacer) && disk.OnDisk() == old(disk.OnDisk())
      ensures old(freeList) == [] ==>
        freeList == [] && old(replacer).Victim() == (replacer, if ok then Chosen(f) else Choice.None)
    {
      hide Cached, Visible, After, Chain, Live;
      ghost var p := View();
      AllPinned(p.frames, p.table, p.free, p.candidates);
      if freeList != [] {
        TakeFreeStep(p, disk.OnDisk());
        f := freeList[0];
        freeList := freeList[1..];
        return true, f;
      }
      ghost var disk0 := disk.OnDisk();
      ok, f := TakeVictim();
      if ok {
        EvictStep(p, disk0, f);
      }
    }

    /** An unpinned page chosen by the replacer makes room. */
    method TakeVictim() returns (ok: bool, f: FrameId)
      requires Valid()
      modifies this`replacer, this`pageTable, pages, disk`file, disk`writes
      ensures Assembled() && unsaved == old(unsaved)
      ensures ok <==> old(replacer.Candidates()) != {}
      ensures !ok ==> View() == old(View()) && disk.OnDisk() == old(disk.OnDisk())
      ensures ok ==> f in old(replacer.Candidates()) && f < poolSize && View() == Evicted(old(View()), f)
      ensures ok ==> disk.OnDisk() == WrittenBack(old(pages[f]), old(disk.OnDisk()))
      ensures disk.OnDisk().Keys == old(disk.OnDisk()).Keys && disk.free == old(disk.free)
      ensures disk.numPages == old(disk.numPages)
      ensures old(replacer).Victim() == (replacer, if ok then Chosen(f) else Choice.None)
    {
      hide Visible, PinsOf, Saved;
      var (r, victim) := replacer.Victim();
      if victim.None? {
        replacer := r;
        return false, 0;
      }
      f := victim.frame;
      EvictStep(View(), disk.OnDisk(), f);
      EvictPage(f);
      replacer := r;
      ok := true;
    }

    method EvictPage(f: FrameId)
      requires Assembled() && f < poolSize
      requires pages[f].pageId in disk.OnDisk() && |pages[f].data| == PAGE_SIZE
      modifies this`pageTable, pages, disk`file, disk`writes
      ensures Assembled() && disk.OnDisk() == WrittenBack(old(pages[f]), old(disk.OnDisk()))
      ensures pages[..] == old(pages[..])[f := old(pages[f]).(isDirty := false)]
      ensures pageTable == old(pageTable) - {old(pages[f]).pageId}
    {
      var victim := pages[f];
      if victim.isDirty {
        var written := disk.WritePage(victim.pageId, victim.data);
      }
      pages[f] := victim.(isDirty := false);
      pageTable := pageTable - {victim.pageId};
    }

    /** Pins a page, reading it if it is not cached; fails only when every frame holds another pinned page. */
    method FetchPage(id: PageId) returns (ok: bool)
      requires Valid() && (id in disk.LivePages() || id == INVALID_PAGE_ID)
      modifies this, pages, disk`file, disk`writes
      ensures Valid() && InPlace(old(View()), View()) && (ok ==> id in pageTable)
      ensures Fetches(old(Seen()), id, ok, Seen())
      ensures ok <==> id != INVALID_PAGE_ID && (id in old(Pins()) || |old(Pins())| < poolSize)
      ensures Contents() == old(Contents())
      ensures Pins() == if ok then Inc(old(Pins()), id) else old(Pins())
      ensures id in old(pageTable) ==>
        && pageTable == old(pageTable) && freeList == old(freeList) && replacer == old(replacer).Pin(pageTable[id])
      ensures id !in old(pageTable) && ok && old(freeList) != [] ==>
        pageTable == old(pageTable)[id := old(freeList)[0]] && freeList == old(freeList)[1..]
    {
      hide Visible, Saved, Live, Chain, WellFormed;
      if id == INVALID_PAGE_ID {
        return false;
      }
      if id in pageTable {
        PinCached(id);
        return true;
      }
      ok := FetchUncached(id);
    }

    /** The page has to be read into a frame. */
    method FetchUncached(id: PageId) returns (ok: bool)
      requires Valid() && id in disk.LivePages() && id !in pageTable && id != INVALID_PAGE_ID
      modifies this, pages, disk`file, disk`writes
      ensures Valid() && InPlace(old(View()), View()) && (ok ==> id in pageTable)
      ensures unsaved == old(unsaved) && id !in old(Pins()) && Contents() == old(Contents())
      ensures ok <==> |old(Pins())| < poolSize
      ensures Pins() == if ok then Inc(old(Pins()), id) else old(Pins())
      ensures ok && old(freeList) != [] ==>
        pageTable == old(pageTable)[id := old(freeList)[0]] && freeList == old(freeList)[1..]
    {
      var f;
      ok, f := TakeFrame();
      if ok {
        ReadInto(f, id);
      }
    }

    /** A live page that is not cached is read into a frame that was taken. */
    method ReadInto(f: FrameId, id: PageId)
      requires Assembled() && f < poolSize && View().Ok(disk.OnDisk(), f)
      requires id in disk.LivePages() && id !in pageTable && id != INVALID_PAGE_ID
      modifies this`replacer, this`pageTable, this`unsaved, pages
      ensures Valid() && unsaved == old(unsaved) && pageTable == old(pageTable)[id := f]
      ensures Contents() == old(View().Contents(disk.OnDisk())) && Pins() == Inc(old(View().Pins()), id)
      ensures InPlace(old(View()), View())
    {
      ReadStep(View(), disk.OnDisk(), f, id);
      var read, data := disk.ReadPage(id);
      Fill(f, id, data, unsaved);
    }

    /** A page moves into a frame that was taken. */
    method Fill(f: FrameId, id: PageId, data: Bytes, ghost changed: set<PageId>)
      requires Assembled() && f < poolSize
      modifies this`replacer, this`pageTable, this`unsaved, pages
      ensures Assembled() && View() == Installed(old(View()), f, id, data, changed)
    {
      pages[f] := Frame(data, id, 1, false);
      pageTable := pageTable[id := f];
      replacer := replacer.Pin(f);
      unsaved := changed;
    }

    /** The page is cached: one more pin. */
    method PinCached(id: PageId)
      requires Valid() && id in pageTable
      modifies this`replacer, pages
      ensures Valid() && Contents() == old(Contents()) && Pins() == Inc(old(Pins()), id)
      ensures InPlace(old(View()), View()) && replacer == old(replacer).Pin(pageTable[id])
      ensures id in old(Pins()) || |old(Pins())| < poolSize
    {
      hide Visible, PinsOf, Saved;
      var f := pageTable[id];
      var n := pages[f].(pinCount := pages[f].pinCount + 1);
      PinStep(View(), disk.OnDisk(), id, n);
      CachedUnpinned(View(), disk.OnDisk(), id);
      pages[f] := n;
      replacer := replacer.Pin(f);
      assert View() == Touched(old(View()), id, n, unsaved);
    }

    /** Drops one pin; whoever changed the page must say so before the last pin goes. */
    method UnpinPage(id: PageId, dirty: bool) returns (ok: bool)
      requires Valid()
      requires dirty || id !in unsaved || PinCount(Pins(), id) > 1
      modifies this`replacer, this`unsaved, pages
      ensures Valid() && InPlace(old(View()), View()) && Unpins(old(Seen()), id, dirty, ok, Seen())
      ensures (ok <==> id in old(Pins())) && Contents() == old(Contents())
      ensures Pins() == if ok then Dec(old(Pins()), id) else old(Pins())
      ensures replacer == if ok && old(Pins())[id] == 1 && id in pageTable then old(replacer).Unpin(pageTable[id])
                          else old(replacer)
    {
      hide Visible, Saved, Cached, After, Chain, Live;
      if id !in pageTable || pages[pageTable[id]].pinCount == 0 {
        assert unsaved - {id} == unsaved;
        return false;
      }
      var f := pageTable[id];
      var n := pages[f].(pinCount := pages[f].pinCount - 1, isDirty := pages[f].isDirty || dirty);
      ghost var changed := if dirty then unsaved - {id} else unsaved;
      UnpinStep(View(), disk.OnDisk(), id, dirty, n, changed);
      SameCandidates(View(), disk.OnDisk(), id);
      Release(f, n, changed);
      ok := true;
    }

    method Release(f: FrameId, n: Frame, ghost changed: set<PageId>)
      requires Assembled() && f < poolSize
      modifies this`replacer, this`unsaved, pages
      ensures Assembled() && View() == old(View()).(frames := old(pages[..])[f := n], unsaved := changed,
        candidates := if n.pinCount == 0 then old(replacer.Candidates()) + {f} else old(replacer.Candidates()))
      ensures replacer == if n.pinCount == 0 then old(replacer).Unpin(f) else old(replacer)
    {
      pages[f] := n;
      unsaved := changed;
      if n.pinCount == 0 {
        replacer := replacer.Unpin(f);
      }
    }

    /** What a holder of a pin does through the page pointer. */
    method WriteThroughPin(id: PageId, data: Bytes)
      requires Valid() && id in Pins() && |data| == PAGE_SIZE
      modifies this`unsaved, pages
      ensures Valid() && View() == Written(old(View()), id, data)
      ensures Writes(old(Seen()), id, data, Seen())
    {
      hide Visible, Saved, Cached, After, Chain, Live, InPlace;
      ghost var p := View();
      var f := pageTable[id];
      var n := pages[f].(data := data);
      WriteStep(p, disk.OnDisk(), id, n, data);
      pages[f] := n;
      unsaved := unsaved + {id};
    }

    /** Writes a cached page back if it is dirty. */
    method FlushPage(id: PageId) returns (ok: bool)
      requires Valid()
      modifies pages, disk`file, disk`writes
      ensures Valid() && Contents() == old(Contents()) && Pins() == old(Pins()) && (ok <==> id in pageTable)
      ensures Stale() <= old(Stale()) && (id in Stale() ==> id in unsaved)
      ensures pages[..] == if ok then Cleaned(old(pages[..]), pageTable[id]) else old(pages[..])
      ensures ok ==> pageTable[id] < pages.Length && !pages[pageTable[id]].isDirty
    {
      if id !in pageTable {
        return false;
      }
      var f := pageTable[id];
      if pages[f].isDirty {
        WriteBack(id, f);
      }
      ok := true;
    }

    /** The pages whose contents the disk does not have. */
    ghost function Stale(): (s: set<PageId>)
      requires Valid()
      reads this, pages, disk
      ensures s <= pageTable.Keys
    {
      set id | id in Contents() && disk.OnDisk()[id] != Contents()[id]
    }

    method WriteBack(id: PageId, f: FrameId)
      requires Valid() && id in pageTable && f == pageTable[id]
      modifies pages, disk`file, disk`writes
      ensures Valid() && Contents() == old(Contents()) && Pins() == old(Pins())
      ensures Stale() == old(Stale()) - {id} && pages[..] == Cleaned(old(pages[..]), f)
    {
      ghost var p := View();
      var n := pages[f].(isDirty := false);
      FlushStep(p, disk.OnDisk(), id, n);
      var written := disk.WritePage(id, n.data);
      pages[f] := n;
      assert View() == p.(frames := p.frames[f := n]);
    }

    /** Afterwards the disk has everything but what holders have changed and not released yet. */
    method FlushAllPages()
      requires Valid()
      modifies pages, disk`file, disk`writes
      ensures Valid() && Contents() == old(Contents()) && Pins() == old(Pins())
      ensures Stale() <= unsaved
      ensures AllClean(pages[..], pageTable, {})
    {
      hide AllClean, Cleaned, Visible, Saved, PinsOf, Chain, Live, WellFormed;
      var rest := pageTable.Keys;
      NoneClean(pages[..], pageTable);
      while rest != {}
        invariant Valid() && Contents() == old(Contents()) && Pins() == old(Pins()) && rest <= pageTable.Keys
        invariant Stale() <= rest + unsaved
        invariant AllClean(pages[..], pageTable, rest)
      {
        var id :| id in rest;
        ghost var stale, fr := Stale(), pages[..];
        var flushed := FlushPage(id);
        OneLess(Stale(), stale, rest, unsaved, id);
        OneCleaner(fr, pageTable, rest, id);
        rest := rest - {id};
      }
    }

    /** A blank page under a fresh id, pinned once; fails only when every frame is pinned. */
    method NewPage() returns (ok: bool, id: PageId)
      requires Valid() && (disk.free == [] ==> disk.numPages < INVALID_PAGE_ID)
      modifies this, pages, disk
      ensures Valid() && disk.numPages <= old(disk.numPages) + 1
      ensures InPlace(old(View()), View()) && (ok ==> id in pageTable)
      ensures Creates(old(Seen()), Zeros(PAGE_SIZE), ok, id, Seen())
      ensures ok <==> |old(Pins())| < poolSize
      ensures ok ==> id !in old(Contents()) && id != INVALID_PAGE_ID
      ensures ok ==> Contents() == old(Contents())[id := Zeros(PAGE_SIZE)]
      ensures ok && old(freeList) != [] ==>
        pageTable == old(pageTable)[id := old(freeList)[0]] && freeList == old(freeList)[1..]
      ensures !ok ==> id == INVALID_PAGE_ID && Contents() == old(Contents())
      ensures Pins() == if ok then old(Pins())[id := 1] else old(Pins())
    {
      id := INVALID_PAGE_ID;
      var f;
      ok, f := TakeFrame();
      if ok {
        id := AllocateInto(f);
      }
    }

    /** A page is allocated and appears, blank, in a frame that was taken. */
    method AllocateInto(f: FrameId) returns (id: PageId)
      requires Assembled() && f < poolSize && View().Ok(disk.OnDisk(), f)
      requires disk.free == [] ==> disk.numPages < INVALID_PAGE_ID
      modifies this`replacer, this`pageTable, this`unsaved, pages, disk
      ensures Valid() && disk.numPages <= old(disk.numPages) + 1
      ensures id !in old(disk.OnDisk()) && id != INVALID_PAGE_ID && id != 0 && unsaved == old(unsaved) + {id}
      ensures Contents() == old(View().Contents(disk.OnDisk()))[id := Zeros(PAGE_SIZE)]
      ensures Pins() == Inc(old(View().Pins()), id) && InPlace(old(View()), View())
      ensures pageTable == old(pageTable)[id := f]
    {
      hide Visible, PinsOf, Saved;
      ghost var p, disk0 := View(), disk.OnDisk();
      id := disk.AllocatePage();
      NewStep(p, disk0, f, id, disk.OnDisk());
      Fill(f, id, Zeros(PAGE_SIZE), unsaved + {id});
    }

    /** Removes a page from the cache and the disk; a pinned page is refused. */
    method DeletePage(id: PageId) returns (ok: bool)
      requires Valid() && id in disk.LivePages()
      modifies this`replacer, this`pageTable, this`freeList, pages, disk
      ensures Valid() && InPlace(old(View()), View()) && Deletes(old(Seen()), id, ok, Seen())
      ensures (ok <==> id !in old(Pins())) && Pins() == old(Pins())
      ensures Contents() == if ok then old(Contents()) - {id} else old(Contents())
      ensures pageTable == if ok then old(pageTable) - {id} else old(pageTable)
      ensures freeList == old(freeList) + if ok && id in old(pageTable) then [old(pageTable)[id]] else []
    {
      hide Visible, Saved, Chain, After, DeallocateWrites, Cached, Live, WellFormed;
      if id !in pageTable {
        DropUncached(id);
        return true;
      }
      var f := pageTable[id];
      ok := pages[f].pinCount == 0;
      if ok {
        DropPage(id, f);
      }
    }

    method DropUncached(id: PageId)
      requires Valid() && id in disk.LivePages() && id !in pageTable
      modifies disk
      ensures Valid() && id !in old(Pins()) && Contents() == old(Contents()) - {id}
      ensures Pins() == old(Pins()) && View() == old(View())
    {
      hide Visible, PinsOf, Saved, Consistent, Cached, DeallocateWrites, After, Chain, Live;
      UncachedStep(View(), disk.OnDisk(), id);
      disk.DeallocatePage(id);
    }

    method DropPage(id: PageId, f: FrameId)
      requires Valid() && id in pageTable && f == pageTable[id] && pages[f].pinCount == 0
      modifies this`replacer, this`pageTable, this`freeList, pages, disk
      ensures Valid() && id !in old(Pins()) && Contents() == old(Contents()) - {id}
      ensures Pins() == old(Pins()) && InPlace(old(View()), View())
      ensures pageTable == old(pageTable) - {id} && freeList == old(freeList) + [f]
    {
      hide Visible, PinsOf, Saved, Consistent, Cached, DeallocateWrites, After, Chain, Live, InPlace;
      CachedFrame(View(), disk.OnDisk(), id);
      DropStep(View(), disk.OnDisk(), id);
      DropFrame(id, f);
      disk.DeallocatePage(id);
    }

    method DropFrame(id: PageId, f: FrameId)
      requires Assembled() && id in pageTable && f == pageTable[id] && f < poolSize
      modifies this`replacer, this`pageTable, this`freeList, pages
      ensures Assembled() && View() == Dropped(old(View()), id)
    {
      replacer := replacer.Pin(f);
      pageTable := pageTable - {id};
      pages[f] := BLANK_FRAME;
      freeList := freeList + [f];
    }
  }

  /** A disk that lacks nothing has the contents. */
  lemma NothingStale(pool: BufferPoolManager)
    requires pool.Valid() && pool.Stale() <= {}
    ensures pool.disk.OnDisk() == pool.Contents() && WellFormed(pool.disk.file, pool.disk.free)
  {
    var disk, contents := pool.disk.OnDisk(), pool.Contents();
    assert contents.Keys == disk.Keys;
    forall id | id in contents
      ensures contents[id] == disk[id]
    {
      assert id !in pool.Stale();
    }
  }

  /**
   The service stops with nothing unreported and starts again on the same file: a new pool over the reopened
   disk shows the same pages.
   */
  method Restart(pool: BufferPoolManager, poolSize: nat, replacer: Replacer) returns (again: BufferPoolManager)
    requires pool.Valid() && pool.unsaved == {}
    requires replacer.Valid() && replacer.Candidates() == {} && replacer.Frames() >= poolSize
    modifies pool.pages, pool.disk`file, pool.disk`writes
    ensures again.Valid() && again.Contents() == old(pool.Contents()) && again.Pins() == map[]
  {
    hide Consistent, Saved, Visible, PinsOf;
    pool.FlushAllPages();
    NothingStale(pool);
    var disk := new DiskManager.Open(pool.disk.file, pool.disk.free);
    again := new BufferPoolManager(poolSize, disk, replacer);
  }
}

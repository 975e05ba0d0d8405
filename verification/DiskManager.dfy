/** The database file: page 0 holds the metadata, deleted pages form a linked list (disk_manager.cpp). */
module DiskManagers {
  import opened Types
  import opened ByteCodes

  // ---- the file ----

  type File = seq<Bytes>

  predicate Paged(file: File) {
    |file| >= 1 && forall i :: 0 <= i < |file| ==> |file[i]| == PAGE_SIZE
  }

  /** One write call: a whole page, or one of the two metadata fields. */
  datatype Write = PageWrite(id: nat, data: Bytes) | HeadWrite(head: U32) | CountWrite(count: U32)

  function Pad(file: File, n: nat): (r: File)
    ensures |r| == if |file| < n then n else |file|
    ensures forall i :: 0 <= i < |r| ==> r[i] == if i < |file| then file[i] else Zeros(PAGE_SIZE)
  {
    if |file| < n then file + seq(n - |file|, _ => Zeros(PAGE_SIZE)) else file
  }

  /** A page written past the end leaves zeros in the gap. */
  function Apply(file: File, w: Write): (r: File)
    requires Paged(file)
    requires w.PageWrite? ==> |w.data| == PAGE_SIZE
    ensures Paged(r) && |r| >= |file|
  {
    match w
    case PageWrite(id, data) => Pad(file, id + 1)[id := data]
    case HeadWrite(head) => file[0 := Splice(file[0], 0, PutU32(head))]
    case CountWrite(count) => file[0 := Splice(file[0], 4, PutU32(count))]
  }

  predicate WellSized(ws: seq<Write>) {
    forall i :: 0 <= i < |ws| && ws[i].PageWrite? ==> |ws[i].data| == PAGE_SIZE
  }

  /** The file after the first `k` writes. */
  function After(file: File, ws: seq<Write>, k: nat): (r: File)
    requires Paged(file) && WellSized(ws) && k <= |ws|
    ensures Paged(r) && |r| >= |file|
  {
    if k == 0 then file else Apply(After(file, ws, k - 1), ws[k - 1])
  }

  function Head(file: File): U32
    requires Paged(file)
  {
    GetU32(file[0], 0)
  }

  function Count(file: File): U32
    requires Paged(file)
  {
    GetU32(file[0], 4)
  }

  /** What ReadPage delivers: a page the file does not reach reads as zeros. */
  function Content(file: File, id: nat): (b: Bytes)
    requires Paged(file)
    ensures |b| == PAGE_SIZE
  {
    if id < |file| then file[id] else Zeros(PAGE_SIZE)
  }

  // ---- the free list ----

  /** `free` lists the pages linked from `head`, in order, up to the end mark. */
  predicate Chain(file: File, head: U32, free: seq<PageId>)
    requires Paged(file)
    decreases |free|
  {
    if free == [] then head == INVALID_PAGE_ID
    else head == free[0] && head < |file| && Chain(file, GetU32(file[head], 0), free[1..])
  }

  /** The free list is acyclic and lies within the pages of the database. */
  predicate WellFormed(file: File, free: seq<PageId>) {
    && Paged(file)
    && 1 <= Count(file)
    && Chain(file, Head(file), free)
    && (forall i :: 0 <= i < |free| ==> 1 <= free[i] < Count(file))
    && (forall i, j :: 0 <= i < j < |free| ==> free[i] != free[j])
  }

  /** The pages in use. */
  ghost function Live(file: File, free: seq<PageId>): (s: set<PageId>)
    requires Paged(file)
  {
    set id: PageId | 1 <= id < Count(file) && id !in free
  }

  /** The file determines its free list. */
  lemma {:induction false} ChainUnique(file: File, head: U32, free: seq<PageId>, other: seq<PageId>)
    requires Paged(file) && Chain(file, head, free) && Chain(file, head, other)
    requires forall i :: 0 <= i < |free| ==> free[i] != INVALID_PAGE_ID
    requires forall i :: 0 <= i < |other| ==> other[i] != INVALID_PAGE_ID
    ensures free == other
    decreases |free|
  {
    if free != [] && other != [] {
      ChainUnique(file, GetU32(file[head], 0), free[1..], other[1..]);
    }
  }

  /** A chain only depends on its own pages. */
  lemma {:induction false} ChainKept(file: File, head: U32, free: seq<PageId>, file2: File)
    requires Paged(file) && Paged(file2) && Chain(file, head, free)
    requires forall i :: 0 <= i < |free| ==> free[i] < |file2| && (free[i] < |file| ==> file2[free[i]] == file[free[i]])
    ensures Chain(file2, head, free)
    decreases |free|
  {
    if free != [] {
      assert free[0] < |file2|;
      forall i | 0 <= i < |free[1..]|
        ensures free[1..][i] < |file2| && (free[1..][i] < |file| ==> file2[free[1..][i]] == file[free[1..][i]])
      {
        assert free[1..][i] == free[i + 1];
      }
      ChainKept(file, GetU32(file[head], 0), free[1..], file2);
    }
  }

  /** Every listed page is in the file. */
  lemma {:induction false} ChainInFile(file: File, head: U32, free: seq<PageId>)
    requires Paged(file) && Chain(file, head, free)
    ensures forall i :: 0 <= i < |free| ==> free[i] < |file|
    decreases |free|
  {
    if free != [] {
      ChainInFile(file, GetU32(file[head], 0), free[1..]);
      forall i | 0 <= i < |free|
        ensures free[i] < |file|
      {
        if i > 0 {
          assert free[i] == free[1..][i - 1];
        }
      }
    }
  }

  // ---- what single writes do ----

  lemma HeadWritten(file: File, head: U32)
    requires Paged(file)
    ensures var f := Apply(file, HeadWrite(head));
      && Head(f) == head && Count(f) == Count(file) && |f| == |file| && forall id :: 0 < id < |file| ==>
          f[id] == file[id]
  {
    U32Written(file[0], 0, head);
    U32Kept(file[0], 0, PutU32(head), 4);
  }

  lemma CountWritten(file: File, count: U32)
    requires Paged(file)
    ensures var f := Apply(file, CountWrite(count));
      && Count(f) == count && Head(f) == Head(file) && |f| == |file| && forall id :: 0 < id < |file| ==>
          f[id] == file[id]
  {
    U32Written(file[0], 4, count);
    U32Kept(file[0], 4, PutU32(count), 0);
  }

  /** A free page: the link to the next one, then zeros. */
  function LinkPage(next: U32): (b: Bytes)
    ensures |b| == PAGE_SIZE
  {
    Splice(Zeros(PAGE_SIZE), 0, PutU32(next))
  }

  // ---- the two operations as sequences of writes ----

  function AllocateWrites(file: File): (ws: seq<Write>)
    requires Paged(file) && AllocateReady(file)
    ensures WellSized(ws)
  {
    if Head(file) != INVALID_PAGE_ID then
      [HeadWrite(GetU32(file[Head(file)], 0)), CountWrite(Count(file))]
    else
      [HeadWrite(Head(file)), CountWrite(Count(file) + 1), PageWrite(Count(file), Zeros(PAGE_SIZE))]
  }

  function DeallocateWrites(file: File, id: nat): (ws: seq<Write>)
    requires Paged(file)
    ensures WellSized(ws)
  {
    if id >= Count(file) || id == 0 then []
    else [PageWrite(id, LinkPage(Head(file))), HeadWrite(id), CountWrite(Count(file))]
  }

  /** The id AllocatePage hands out, and the free list it leaves. */
  function Allocated(file: File, free: seq<PageId>): (r: (U32, seq<PageId>))
    requires Paged(file)
  {
    if free != [] then (free[0], free[1..]) else (Count(file), [])
  }

  /** Whether the list is empty can be told from its head. */
  lemma HeadTells(file: File, free: seq<PageId>)
    requires WellFormed(file, free)
    ensures free == [] <==> Head(file) == INVALID_PAGE_ID
    ensures free != [] ==> Head(file) == free[0] < |file|
  {
  }

  lemma WellFormedFrom(file: File, free: seq<PageId>, f: File)
    requires WellFormed(file, free) && Paged(f) && Head(f) == Head(file) && Count(file) <= Count(f)
    requires forall i :: 0 <= i < |free| ==> free[i] < |f| && (free[i] < |file| ==> f[free[i]] == file[free[i]])
    ensures WellFormed(f, free)
  {
    ChainKept(file, Head(file), free, f);
  }

  /** Unlinking the first free page. */
  lemma PopWellFormed(file: File, free: seq<PageId>, f: File)
    requires WellFormed(file, free) && free != [] && Paged(f) && free[0] < |file|
    requires Head(f) == GetU32(file[free[0]], 0) && Count(f) == Count(file) && |f| == |file|
    requires forall id :: 0 < id < |file| ==> f[id] == file[id]
    ensures WellFormed(f, free[1..])
  {
    var rest := free[1..];
    assert forall i :: 0 <= i < |rest| ==> rest[i] == free[i + 1];
    ChainInFile(file, Head(f), rest);
    ChainKept(file, Head(f), rest, f);
  }

  /** Linking a page in front. */
  lemma PushWellFormed(file: File, free: seq<PageId>, id: PageId, f: File)
    requires WellFormed(file, free) && id !in free && 1 <= id < Count(file) && Paged(f) && id < |f|
    requires Head(f) == id && Count(f) == Count(file) && |f| >= |file|
    requires GetU32(f[id], 0) == Head(file)
    requires forall i :: 0 < i < |file| && i != id ==> f[i] == file[i]
    ensures WellFormed(f, [id] + free)
  {
    ChainInFile(file, Head(file), free);
    ChainKept(file, Head(file), free, f);
    assert ([id] + free)[1..] == free;
  }

  // ---- stopping between two writes ----

  /**
   Reopening `f` finds this free list and page count, and all pages but `except` as they were in `file`.
   Page 0 is the metadata page, so 0 stands for no exception.
   */
  ghost predicate Reopens(file: File, f: File, free: seq<PageId>, count: nat, except: nat)
    requires Paged(file)
  {
    WellFormed(f, free) && Count(f) == count && forall id :: 0 < id && id != except ==>
        Content(f, id) == Content(file, id)
  }

  predicate AllocateReady(file: File)
    requires Paged(file)
  {
    if Head(file) != INVALID_PAGE_ID then Head(file) < |file| else Count(file) < INVALID_PAGE_ID
  }

  lemma Ready(file: File, free: seq<PageId>)
    requires WellFormed(file, free) && (free == [] ==> Count(file) < INVALID_PAGE_ID)
    ensures AllocateReady(file)
    ensures |AllocateWrites(file)| == if free == [] then 3 else 2
  {
    HeadTells(file, free);
  }

  lemma AllocateFirst(file: File, free: seq<PageId>)
    requires WellFormed(file, free) && AllocateReady(file)
    ensures var f := After(file, AllocateWrites(file), 1);
      && Reopens(file, f, if free == [] then [] else free[1..], Count(file), 0)
      && |f| == |file|
  {
    HeadTells(file, free);
    var ws := AllocateWrites(file);
    var f := After(file, ws, 1);
    assert f == Apply(After(file, ws, 0), ws[0]);
    HeadWritten(file, ws[0].head);
    if free == [] {
      WellFormedFrom(file, free, f);
    } else {
      PopWellFormed(file, free, f);
    }
  }

  lemma CountOnly(file: File, free: seq<PageId>, count: U32)
    requires WellFormed(file, free) && Count(file) <= count
    ensures Reopens(file, Apply(file, CountWrite(count)), free, count, 0)
    ensures |Apply(file, CountWrite(count))| == |file|
  {
    CountWritten(file, count);
    ChainInFile(file, Head(file), free);
    WellFormedFrom(file, free, Apply(file, CountWrite(count)));
  }

  lemma AppendOnly(file: File, free: seq<PageId>, id: nat)
    requires WellFormed(file, free) && id > 0 && id !in free
    ensures Reopens(file, Apply(file, PageWrite(id, Zeros(PAGE_SIZE))), free, Count(file), id)
    ensures Content(Apply(file, PageWrite(id, Zeros(PAGE_SIZE))), id) == Zeros(PAGE_SIZE)
  {
    ChainInFile(file, Head(file), free);
    WellFormedFrom(file, free, Apply(file, PageWrite(id, Zeros(PAGE_SIZE))));
  }

  /**
   AllocatePage, stopped after any number of its writes: the file has the free list and the page count from
   before the call, or those from after it, and every page of the database keeps its contents (the page that
   a growing database gains reads as zeros or as what lay beyond the end).
   */
  lemma AllocateCrash(file: File, free: seq<PageId>, k: nat)
    requires WellFormed(file, free) && AllocateReady(file) && k <= |AllocateWrites(file)|
    ensures var done := k >= (if free == [] then 2 else 1);
      Reopens(file, After(file, AllocateWrites(file), k),
              if done then Allocated(file, free).1 else free,
              Count(file) + (if done && free == [] then 1 else 0),
              if free == [] then Count(file) else 0)
    ensures k == 3 ==> Content(After(file, AllocateWrites(file), 3), Count(file)) == Zeros(PAGE_SIZE)
  {
    HeadTells(file, free);
    var ws, rest := AllocateWrites(file), if free == [] then [] else free[1..];
    if k >= 1 {
      AllocateFirst(file, free);
    }
    if k >= 2 {
      var f1 := After(file, ws, 1);
      assert After(file, ws, 2) == Apply(f1, ws[1]);
      CountOnly(f1, rest, ws[1].count);
      if k == 3 {
        var f2 := After(file, ws, 2);
        assert After(file, ws, 3) == Apply(f2, ws[2]);
        AppendOnly(f2, rest, Count(file));
      }
    }
  }

  lemma DeallocateFirst(file: File, free: seq<PageId>, id: PageId)
    requires WellFormed(file, free) && id in Live(file, free)
    ensures var f := Apply(file, PageWrite(id, LinkPage(Head(file))));
      && Reopens(file, f, free, Count(file), id)
      && id < |f| && |f| >= |file| && GetU32(f[id], 0) == Head(f) == Head(file)
  {
    ChainInFile(file, Head(file), free);
    U32Written(Zeros(PAGE_SIZE), 0, Head(file));
    WellFormedFrom(file, free, Apply(file, PageWrite(id, LinkPage(Head(file)))));
  }

  lemma DeallocateSecond(file: File, free: seq<PageId>, id: PageId)
    requires WellFormed(file, free) && id !in free && 1 <= id < Count(file) && id < |file|
    requires GetU32(file[id], 0) == Head(file)
    ensures Reopens(file, Apply(file, HeadWrite(id)), [id] + free, Count(file), 0)
  {
    HeadWritten(file, id);
    PushWellFormed(file, free, id, Apply(file, HeadWrite(id)));
  }

  /**
   DeallocatePage, stopped after any number of its writes: likewise, and only the deleted page loses its contents.
   */
  lemma DeallocateCrash(file: File, free: seq<PageId>, id: PageId, k: nat)
    requires WellFormed(file, free) && id in Live(file, free) && k <= |DeallocateWrites(file, id)|
    ensures Reopens(file, After(file, DeallocateWrites(file, id), k),
                    if k >= 2 then [id] + free else free, Count(file), id)
  {
    hide GetU32, PutU32, Splice, Chain, Pad;
    var ws := DeallocateWrites(file, id);
    if k >= 1 {
      assert After(file, ws, 1) == Apply(After(file, ws, 0), ws[0]);
      DeallocateFirst(file, free, id);
    }
    if k >= 2 {
      var f1 := After(file, ws, 1);
      assert After(file, ws, 2) == Apply(f1, ws[1]);
      DeallocateSecond(f1, free, id);
      if k == 3 {
        var f2 := After(file, ws, 2);
        assert After(file, ws, 3) == Apply(f2, ws[2]);
        CountOnly(f2, [id] + free, ws[2].count);
      }
    }
  }

  // ---- the disk manager ----

  class DiskManager {
    var file: File
    var freeListHead: U32
    var numPages: U32
    /** The linked pages, first one first. */
    ghost var free: seq<PageId>
    /** The single writes of the last operation, in order. */
    ghost var writes: seq<Write>

    ghost predicate Valid()
      reads this
    {
      WellFormed(file, free) && freeListHead == Head(file) && numPages == Count(file)
    }

    /** The pages in use. */
    ghost function LivePages(): set<PageId>
      requires Paged(file)
      reads this`file, this`free
    {
      Live(file, free)
    }

    /** The contents of a page. */
    ghost function At(id: nat): Bytes
      requires Paged(file)
      reads this`file
    {
      Content(file, id)
    }

    /** The pages in use with their contents on disk. */
    ghost function OnDisk(): map<PageId, Bytes>
      requires Paged(file)
      reads this`file, this`free
    {
      map id | id in LivePages() :: Content(file, id)
    }

    /** A new database. */
    constructor Create()
      ensures Valid() && free == [] && numPages == 1 && freeListHead == INVALID_PAGE_ID
      ensures |file| == 1 && GetU32(file[0], 0) == INVALID_PAGE_ID && GetU32(file[0], 4) == 1
    {
      var metadata := Splice(Splice(Zeros(PAGE_SIZE), 0, PutU32(INVALID_PAGE_ID)), 4, PutU32(1));
      file, freeListHead, numPages, free, writes := [metadata], INVALID_PAGE_ID, 1, [], [];
      new;
      U32Written(Zeros(PAGE_SIZE), 0, INVALID_PAGE_ID);
      U32Written(Splice(Zeros(PAGE_SIZE), 0, PutU32(INVALID_PAGE_ID)), 4, 1);
      U32Kept(Splice(Zeros(PAGE_SIZE), 0, PutU32(INVALID_PAGE_ID)), 4, PutU32(1), 0);
    }

    /** An existing database: ReadMetadata. */
    constructor Open(file: File, ghost free: seq<PageId>)
      requires WellFormed(file, free)
      ensures Valid() && this.file == file && this.free == free
      ensures freeListHead == GetU32(file[0], 0) && numPages == GetU32(file[0], 4)
    {
      this.file, freeListHead, numPages := file, GetU32(file[0], 0), GetU32(file[0], 4);
      this.free, writes := free, [];
    }

    method WriteOut(w: Write)
      requires Paged(file) && (w.PageWrite? ==> |w.data| == PAGE_SIZE)
      modifies this`file, this`writes
      ensures Paged(file) && file == Apply(old(file), w) && writes == old(writes) + [w]
    {
      file := Apply(file, w);
      writes := writes + [w];
    }

    /** WriteMetadata: two field writes. */
    method WriteMetadata()
      requires Paged(file)
      modifies this`file, this`writes
      ensures Paged(file) && file == Apply(Apply(old(file), HeadWrite(freeListHead)), CountWrite(numPages))
      ensures writes == old(writes) + [HeadWrite(freeListHead), CountWrite(numPages)]
    {
      WriteOut(HeadWrite(freeListHead));
      WriteOut(CountWrite(numPages));
    }

    /** Fails on an id out of range. */
    method ReadPage(id: PageId) returns (ok: bool, data: Bytes)
      requires Valid()
      ensures ok <==> id < numPages
      ensures ok ==> data == At(id) == if id < |file| then file[id] else Zeros(PAGE_SIZE)
    {
      if id >= numPages {
        return false, [];
      }
      ok, data := true, if id < |file| then file[id] else Zeros(PAGE_SIZE);
    }

    /** Fails on an id out of range; the caller must own the page. */
    method WritePage(id: PageId, data: Bytes) returns (ok: bool)
      requires Valid() && |data| == PAGE_SIZE && (id < numPages ==> id in LivePages())
      modifies this`file, this`writes
      ensures Valid() && (ok <==> id < numPages) && LivePages() == old(LivePages())
      ensures OnDisk() == if ok then old(OnDisk())[id := data] else old(OnDisk())
      ensures ok ==> id < |file| && file[id] == data
      ensures forall i :: 0 <= i < |old(file)| && !(ok && i == id) ==> i < |file| && file[i] == old(file)[i]
    {
      ok := id < numPages;
      if ok {
        ChainInFile(file, Head(file), free);
        WriteOut(PageWrite(id, data));
        WellFormedFrom(old(file), free, file);
      }
    }

    /** The most recently deleted page, or a new one at the end of the file. */
    method AllocatePage() returns (id: PageId)
      requires Valid() && (free == [] ==> numPages < INVALID_PAGE_ID)
      modifies this
      ensures Valid()
      ensures AllocateReady(old(file)) && writes == AllocateWrites(old(file))
      ensures file == After(old(file), writes, |writes|)
      ensures (id, free) == Allocated(old(file), old(free))
      ensures numPages == old(numPages) + if old(free) == [] then 1 else 0
      ensures id != INVALID_PAGE_ID && id !in old(LivePages()) && LivePages() == old(LivePages()) + {id}
      ensures OnDisk() == old(OnDisk())[id := At(id)]
      ensures if old(free) == [] then id == old(numPages) && free == [] && At(id) == Zeros(PAGE_SIZE)
              else id == old(free)[0] && free == old(free)[1..] && At(id) == Content(old(file), id)
    {
      hide GetU32, PutU32, Splice, Chain, Pad, Apply, After;
      Ready(file, free);
      AllocateDone(file, free);
      ghost var next := Allocated(file, free).1;
      id := TakePage();
      free := next;
      assert forall i :: i in old(LivePages()) ==> At(i) == old(At(i));
    }

    method TakePage() returns (id: PageId)
      requires Paged(file) && AllocateReady(file) && freeListHead == Head(file) && numPages == Count(file)
      modifies this`file, this`writes, this`freeListHead, this`numPages
      ensures Paged(file) && writes == AllocateWrites(old(file)) && file == After(old(file), writes, |writes|)
      ensures freeListHead == writes[0].head && numPages == writes[1].count
      ensures id == if old(freeListHead) != INVALID_PAGE_ID then old(freeListHead) else old(numPages)
    {
      hide GetU32, PutU32, Splice, Pad, Apply;
      writes := [];
      if freeListHead != INVALID_PAGE_ID {
        id := freeListHead;
        freeListHead := GetU32(file[id], 0);
        WriteMetadata();
      } else {
        id := numPages;
        numPages := numPages + 1;
        WriteMetadata();
        WriteOut(PageWrite(id, Zeros(PAGE_SIZE)));
      }
      AllWrites(old(file), writes);
    }

    /** The page becomes the head of the free list; page 0 and ids out of range are refused. */
    method DeallocatePage(id: PageId)
      requires Valid() && (1 <= id < numPages ==> id in LivePages())
      modifies this
      ensures Valid() && numPages == old(numPages)
      ensures writes == DeallocateWrites(old(file), id) && file == After(old(file), writes, |writes|)
      ensures free == if 1 <= id < numPages then [id] + old(free) else old(free)
      ensures LivePages() == old(LivePages()) - {id} && OnDisk() == old(OnDisk()) - {id}
      ensures 1 <= id < numPages ==> freeListHead == id && GetU32(At(id), 0) == old(freeListHead)
      ensures 1 <= id < numPages ==> forall i :: 4 <= i < PAGE_SIZE ==> At(id)[i] == 0
      ensures !(1 <= id < numPages) ==> file == old(file) && freeListHead == old(freeListHead)
    {
      hide GetU32, PutU32, Splice, Chain, Pad, Apply;
      if id >= numPages || id == 0 {
        writes := [];
        return;
      }
      DeallocateDone(file, free, id);
      LinkedOut(file, id);
      LinkOut(id);
      free := [id] + free;
    }

    method LinkOut(id: PageId)
      requires Paged(file) && freeListHead == Head(file) && numPages == Count(file) && 1 <= id < numPages
      modifies this`file, this`writes, this`freeListHead
      ensures Paged(file) && writes == DeallocateWrites(old(file), id) && file == After(old(file), writes, |writes|)
      ensures freeListHead == id
    {
      writes := [];
      WriteOut(PageWrite(id, LinkPage(freeListHead)));
      freeListHead := id;
      WriteMetadata();
      AllWrites(old(file), writes);
    }
  }

  /** Up to three writes, one after the other. */
  lemma AllWrites(file: File, ws: seq<Write>)
    requires Paged(file) && WellSized(ws)
    ensures |ws| == 2 ==> After(file, ws, 2) == Apply(Apply(file, ws[0]), ws[1])
    ensures |ws| == 3 ==> After(file, ws, 3) == Apply(Apply(Apply(file, ws[0]), ws[1]), ws[2])
  {
    if |ws| >= 2 {
      assert After(file, ws, 1) == Apply(After(file, ws, 0), ws[0]);
      assert After(file, ws, 2) == Apply(After(file, ws, 1), ws[1]);
    }
    if |ws| == 3 {
      assert After(file, ws, 3) == Apply(After(file, ws, 2), ws[2]);
    }
  }

  /** A complete AllocatePage. */
  lemma AllocateDone(file: File, free: seq<PageId>)
    requires WellFormed(file, free) && AllocateReady(file)
    ensures var ws, (id, rest) := AllocateWrites(file), Allocated(file, free);
      var f := After(file, ws, |ws|);
      && Reopens(file, f, rest, ws[1].count, if free == [] then Count(file) else 0)
      && Head(f) == ws[0].head && ws[1].count == Count(file) + (if free == [] then 1 else 0)
      && id == (if Head(file) != INVALID_PAGE_ID then Head(file) else Count(file))
      && id != INVALID_PAGE_ID && id in Live(f, rest) && id !in Live(file, free)
      && Live(f, rest) - {id} == Live(file, free)
      && Content(f, id) == if free == [] then Zeros(PAGE_SIZE) else Content(file, id)
  {
    var ws := AllocateWrites(file);
    HeadTells(file, free);
    AllocateHead(file, free);
    AllocateCrash(file, free, |ws|);
    LiveAfterAllocate(file, free, After(file, ws, |ws|));
  }

  lemma AllocateHead(file: File, free: seq<PageId>)
    requires WellFormed(file, free) && AllocateReady(file)
    ensures var ws := AllocateWrites(file); Head(After(file, ws, |ws|)) == ws[0].head
  {
    var ws := AllocateWrites(file);
    AllWrites(file, ws);
    HeadWritten(file, ws[0].head);
    CountWritten(Apply(file, ws[0]), ws[1].count);
  }

  /** Exactly the allocated page joins the pages in use. */
  lemma LiveAfterAllocate(file: File, free: seq<PageId>, f: File)
    requires WellFormed(file, free) && Paged(f) && (free == [] ==> Count(file) < INVALID_PAGE_ID)
    requires Count(f) == Count(file) + if free == [] then 1 else 0
    ensures var (id, rest) := Allocated(file, free);
      id in Live(f, rest) && id !in Live(file, free) && Live(f, rest) - {id} == Live(file, free)
  {
    if free != [] {
      assert forall id :: id in free[1..] ==> id in free;
      assert forall id :: id in free ==> id == free[0] || id in free[1..];
      assert free[0] !in free[1..];
    }
  }

  /** A complete DeallocatePage. */
  lemma DeallocateDone(file: File, free: seq<PageId>, id: PageId)
    requires WellFormed(file, free) && id in Live(file, free)
    ensures var f := After(file, DeallocateWrites(file, id), 3);
      && Reopens(file, f, [id] + free, Count(file), id) && Head(f) == id
      && Live(f, [id] + free) == Live(file, free) - {id}
  {
    var ws := DeallocateWrites(file, id);
    AllWrites(file, ws);
    HeadWritten(Apply(file, ws[0]), id);
    CountWritten(Apply(Apply(file, ws[0]), ws[1]), ws[2].count);
    DeallocateCrash(file, free, id, 3);
  }

  // ---- deleting a page that is free already ----

  /** A list that starts like the old one runs along it up to the rewritten page `id`. */
  lemma {:induction false} FollowsOld(file: File, free: seq<PageId>, f: File, list: seq<PageId>, head: U32, k: nat)
    requires Paged(file) && Paged(f) && |f| >= |file| && Chain(file, head, free) && Chain(f, head, list)
    requires k < |free| && free[k] != INVALID_PAGE_ID
    requires forall i :: 0 <= i < k ==> free[i] != INVALID_PAGE_ID && free[i] < |file| && f[free[i]] == file[free[i]]
    ensures k < |list| && list[k] == free[k]
    decreases k
  {
    if k > 0 {
      FollowsOld(file, free[1..], f, list[1..], GetU32(file[head], 0), k - 1);
    }
  }

  lemma DeallocateTwice(file: File, free: seq<PageId>, id: PageId, list: seq<PageId>)
    requires WellFormed(file, free) && id in free
    ensures !WellFormed(After(file, DeallocateWrites(file, id), 3), list)
  {
    hide GetU32, PutU32, Splice;
    var k :| 0 <= k < |free| && free[k] == id;
    ChainInFile(file, Head(file), free);
    var f := After(file, DeallocateWrites(file, id), 3);
    LinkedOut(file, id);
    if WellFormed(f, list) {
      assert list[0] !in list[1..];
      FollowsOld(file, free, f, list[1..], Head(file), k);
    }
  }

  /** What DeallocatePage writes, whatever the page was. */
  lemma LinkedOut(file: File, id: PageId)
    requires Paged(file) && 1 <= id < Count(file)
    ensures var f := After(file, DeallocateWrites(file, id), 3);
      && |f| >= |file| && id < |f| && Head(f) == id && Count(f) == Count(file) && GetU32(f[id], 0) == Head(file)
      && (forall i :: 4 <= i < PAGE_SIZE ==> f[id][i] == 0)
      && forall p :: 0 < p < |file| && p != id ==> f[p] == file[p]
  {
    hide GetU32, PutU32, Splice;
    var ws := DeallocateWrites(file, id);
    AllWrites(file, ws);
    U32Written(Zeros(PAGE_SIZE), 0, Head(file));
    HeadWritten(Apply(file, ws[0]), id);
    CountWritten(Apply(Apply(file, ws[0]), ws[1]), ws[2].count);
  }

  /** DeallocatePage leaves a file that can be opened exactly if the page was not free already. */
  lemma DeallocateSound(file: File, free: seq<PageId>, id: PageId)
    requires WellFormed(file, free) && 1 <= id < Count(file)
    ensures (exists list :: WellFormed(After(file, DeallocateWrites(file, id), 3), list)) <==> id !in free
  {
    var f := After(file, DeallocateWrites(file, id), 3);
    if id in free {
      forall list
        ensures !WellFormed(f, list)
      {
        DeallocateTwice(file, free, id, list);
      }
    } else {
      DeallocateDone(file, free, id);
      assert WellFormed(f, [id] + free);
    }
  }
}

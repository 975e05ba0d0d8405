/** One 4096-byte page of tuples: slots grow up from the header, tuples grow down from the end (table_page.hpp). */
module TablePages {
  import opened Types
  import opened ByteCodes
  import opened Records
  import opened TupleCodec

  type Page = b: Bytes | |b| == PAGE_SIZE witness Zeros(PAGE_SIZE)

  // ---- the layout ----

  datatype Slot = Slot(offset: U32, length: U32)

  /** The fields before the tuples. */
  datatype Header = Header(pageId: U32, slots: seq<Slot>, free: U32, prev: U32, next: U32)

  function SlotAt(i: nat): nat {
    20 + 8 * i
  }

  function NumSlots(b: Page): U32 {
    GetU32(b, 4)
  }

  /** The slots lie within the page. */
  predicate Formed(b: Page) {
    SlotAt(NumSlots(b)) <= PAGE_SIZE
  }

  function SlotOf(b: Page, i: nat): Slot
    requires SlotAt(i + 1) <= PAGE_SIZE
  {
    Slot(GetU32(b, SlotAt(i)), GetU32(b, SlotAt(i) + 4))
  }

  function HeaderOf(b: Page): (h: Header)
    requires Formed(b)
    ensures |h.slots| == NumSlots(b)
  {
    Header(GetU32(b, 0), seq(NumSlots(b), i requires 0 <= i < NumSlots(b) => SlotOf(b, i)),
           GetU32(b, 8), GetU32(b, 12), GetU32(b, 16))
  }

  function SetU32(b: Page, at: nat, x: U32): Page
    requires at + 4 <= PAGE_SIZE
  {
    Splice(b, at, PutU32(x))
  }

  function SetSlot(b: Page, i: nat, s: Slot): Page
    requires SlotAt(i + 1) <= PAGE_SIZE
  {
    SetU32(SetU32(b, SlotAt(i), s.offset), SlotAt(i) + 4, s.length)
  }

  /** Two pages with the same bytes up to the end of the slots have the same header. */
  lemma SameHeader(b: Page, c: Page)
    requires Formed(b) && b[..SlotAt(NumSlots(b))] == c[..SlotAt(NumSlots(b))]
    ensures Formed(c) && HeaderOf(c) == HeaderOf(b)
  {
    var n := SlotAt(NumSlots(b));
    forall at: nat | at + 4 <= n
      ensures GetU32(b, at) == GetU32(c, at)
    {
      SameU32(b, c, at, n);
    }
    assert NumSlots(c) == NumSlots(b);
    assert forall i: nat :: i < NumSlots(b) ==> SlotOf(c, i) == SlotOf(b, i);
  }

  lemma SameU32(b: Page, c: Page, at: nat, n: nat)
    requires at + 4 <= n <= PAGE_SIZE && b[..n] == c[..n]
    ensures GetU32(b, at) == GetU32(c, at)
  {
    forall i | at <= i < at + 4
      ensures b[i] == c[i]
    {
      assert b[i] == b[..n][i] && c[i] == c[..n][i];
    }
    NumberSame(b, c, at, 4);
  }

  lemma DataHeader(b: Page, at: nat, d: Bytes)
    requires Formed(b) && SlotAt(NumSlots(b)) <= at && at + |d| <= PAGE_SIZE
    ensures Formed(Splice(b, at, d)) && HeaderOf(Splice(b, at, d)) == HeaderOf(b)
  {
    hide GetU32, PutU32;
    SameHeader(b, Splice(b, at, d));
  }

  lemma SetOther(b: Page, at: nat, x: U32, other: nat)
    requires at + 4 <= PAGE_SIZE && other + 4 <= PAGE_SIZE && (other + 4 <= at || at + 4 <= other)
    ensures GetU32(SetU32(b, at, x), other) == GetU32(b, other)
  {
    hide GetU32, PutU32;
    U32Kept(b, at, PutU32(x), other);
  }

  lemma FreeHeader(b: Page, x: U32)
    requires Formed(b)
    ensures Formed(SetU32(b, 8, x)) && HeaderOf(SetU32(b, 8, x)) == HeaderOf(b).(free := x)
  {
    hide GetU32, PutU32;
    var c := SetU32(b, 8, x);
    U32Written(b, 8, x);
    forall other: nat | other + 4 <= PAGE_SIZE && (other + 4 <= 8 || 12 <= other)
      ensures GetU32(c, other) == GetU32(b, other)
    {
      SetOther(b, 8, x, other);
    }
    assert NumSlots(c) == NumSlots(b);
    assert forall i: nat :: i < NumSlots(b) ==> SlotOf(c, i) == SlotOf(b, i);
  }

  lemma NextHeader(b: Page, x: U32)
    requires Formed(b)
    ensures Formed(SetU32(b, 16, x)) && HeaderOf(SetU32(b, 16, x)) == HeaderOf(b).(next := x)
  {
    hide GetU32, PutU32;
    var c := SetU32(b, 16, x);
    U32Written(b, 16, x);
    forall other: nat | other + 4 <= PAGE_SIZE && (other + 4 <= 16 || 20 <= other)
      ensures GetU32(c, other) == GetU32(b, other)
    {
      SetOther(b, 16, x, other);
    }
    assert NumSlots(c) == NumSlots(b);
    assert forall i: nat :: i < NumSlots(b) ==> SlotOf(c, i) == SlotOf(b, i);
  }

  lemma CountHeader(b: Page, n: U32)
    requires Formed(b) && SlotAt(n) <= PAGE_SIZE && n == NumSlots(b) + 1
    ensures Formed(SetU32(b, 4, n))
    ensures HeaderOf(SetU32(b, 4, n)) == HeaderOf(b).(slots := HeaderOf(b).slots + [SlotOf(b, NumSlots(b))])
  {
    hide GetU32, PutU32;
    var c := SetU32(b, 4, n);
    U32Written(b, 4, n);
    forall other: nat | other + 4 <= PAGE_SIZE && (other + 4 <= 4 || 8 <= other)
      ensures GetU32(c, other) == GetU32(b, other)
    {
      SetOther(b, 4, n, other);
    }
    assert forall i: nat :: i < n ==> SlotOf(c, i) == SlotOf(b, i);
  }

  /** Writing a slot, in use or just past the last one. */
  lemma SlotHeader(b: Page, i: nat, s: Slot)
    requires Formed(b) && i <= NumSlots(b) && SlotAt(i + 1) <= PAGE_SIZE
    ensures Formed(SetSlot(b, i, s)) && SlotOf(SetSlot(b, i, s), i) == s
    ensures HeaderOf(SetSlot(b, i, s)) ==
        if i < NumSlots(b) then HeaderOf(b).(slots := HeaderOf(b).slots[i := s]) else HeaderOf(b)
  {
    hide GetU32, PutU32;
    var b1, c := SetU32(b, SlotAt(i), s.offset), SetSlot(b, i, s);
    U32Written(b, SlotAt(i), s.offset);
    U32Written(b1, SlotAt(i) + 4, s.length);
    SetOther(b1, SlotAt(i) + 4, s.length, SlotAt(i));
    forall other: nat | other + 4 <= PAGE_SIZE && (other + 4 <= SlotAt(i) || SlotAt(i + 1) <= other)
      ensures GetU32(c, other) == GetU32(b, other)
    {
      SetOther(b, SlotAt(i), s.offset, other);
      SetOther(b1, SlotAt(i) + 4, s.length, other);
    }
    assert NumSlots(c) == NumSlots(b);
    assert forall j: nat :: j < NumSlots(b) && j != i ==> SlotOf(c, j) == SlotOf(b, j);
  }

  lemma LengthHeader(b: Page, i: nat, n: U32)
    requires Formed(b) && i < NumSlots(b)
    ensures Formed(SetU32(b, SlotAt(i) + 4, n))
    ensures var h := HeaderOf(b);
      HeaderOf(SetU32(b, SlotAt(i) + 4, n)) == h.(slots := h.slots[i := h.slots[i].(length := n)])
  {
    hide GetU32, PutU32;
    var c := SetU32(b, SlotAt(i) + 4, n);
    U32Written(b, SlotAt(i) + 4, n);
    forall other: nat | other + 4 <= PAGE_SIZE && (other + 4 <= SlotAt(i) + 4 || SlotAt(i + 1) <= other)
      ensures GetU32(c, other) == GetU32(b, other)
    {
      SetOther(b, SlotAt(i) + 4, n, other);
    }
    assert NumSlots(c) == NumSlots(b);
    assert forall j: nat :: j < NumSlots(b) && j != i ==> SlotOf(c, j) == SlotOf(b, j);
  }

  // ---- the invariant ----

  predicate Apart(a: Slot, b: Slot) {
    a.length == 0 || b.length == 0 || a.offset + a.length <= b.offset || b.offset + b.length <= a.offset
  }

  predicate Within(a: Slot, free: nat) {
    a.length == 0 || free <= a.offset <= a.offset + a.length <= PAGE_SIZE
  }

  /** Every slot but perhaps one deleted slot is paid for by a byte of tuples, so the slots cannot run out. */
  predicate Thin(ss: seq<Slot>, free: nat) {
    free + |ss| <= PAGE_SIZE || (free + |ss| == PAGE_SIZE + 1 && FirstEmpty(ss, 0) < |ss|)
  }

  /** The slots end before the tuples begin, and the tuples do not overlap. */
  predicate SlotsOk(ss: seq<Slot>, free: nat) {
    && SlotAt(|ss|) <= free <= PAGE_SIZE
    && (forall i :: 0 <= i < |ss| ==> Within(ss[i], free))
    && (forall i, j :: 0 <= i < j < |ss| ==> Apart(ss[i], ss[j]))
    && Thin(ss, free)
  }

  predicate PageOk(b: Page) {
    Formed(b) && SlotsOk(HeaderOf(b).slots, HeaderOf(b).free)
  }

  /** `c` differs from `b` in the slots and the free space pointer. */
  predicate Changed(b: Page, ss: seq<Slot>, free: nat, c: Page)
    requires Formed(b)
  {
    Formed(c) && HeaderOf(c) == HeaderOf(b).(slots := ss, free := HeaderOf(c).free) && HeaderOf(c).free == free
  }

  lemma StillOk(b: Page, ss: seq<Slot>, free: nat, c: Page)
    requires Formed(b) && Changed(b, ss, free, c) && SlotsOk(ss, free)
    ensures PageOk(c) && SameLinks(HeaderOf(b), HeaderOf(c)) && HeaderOf(c).slots == ss
  {
    hide GetU32, PutU32, Splice;
  }

  /** The fixed array of 500 slots is never overrun. */
  lemma SlotsSuffice(b: Page)
    requires PageOk(b)
    ensures NumSlots(b) <= 453 < 500
  {
    assert SlotAt(NumSlots(b)) <= HeaderOf(b).free;
  }

  /** The first slot from `i` on without a tuple. */
  function FirstEmpty(ss: seq<Slot>, i: nat): (r: nat)
    requires i <= |ss|
    ensures i <= r <= |ss| && (r < |ss| ==> ss[r].length == 0) && forall j :: i <= j < r ==> ss[j].length != 0
    decreases |ss| - i
  {
    if i == |ss| || ss[i].length == 0 then i else FirstEmpty(ss, i + 1)
  }

  predicate SameLinks(h: Header, g: Header) {
    g.pageId == h.pageId && g.prev == h.prev && g.next == h.next
  }

  // ---- what a page holds ----

  function Stored(b: Page, s: Slot): (d: Bytes)
    ensures Within(s, 0) ==> |d| == s.length
  {
    if s.offset + s.length <= PAGE_SIZE then b[s.offset..s.offset + s.length] else []
  }

  ghost function TuplesIn(b: Page, ss: seq<Slot>): map<nat, Bytes> {
    map i: nat | i < |ss| && ss[i].length > 0 :: Stored(b, ss[i])
  }

  /** The tuples by slot number. */
  ghost function Tuples(b: Page): map<nat, Bytes>
    requires PageOk(b)
  {
    TuplesIn(b, HeaderOf(b).slots)
  }

  /** The tuples after slot `i` was made to hold `d`. */
  function Holding(m: map<nat, Bytes>, i: nat, d: Bytes): map<nat, Bytes> {
    if d == [] then m - {i} else m[i := d]
  }

  function Placed(ss: seq<Slot>, i: nat, s: Slot): seq<Slot>
    requires i <= |ss|
  {
    if i < |ss| then ss[i := s] else ss + [s]
  }

  lemma TuplesPlaced(b: Page, ss: seq<Slot>, i: nat, s: Slot, c: Page)
    requires i <= |ss| && Within(s, 0)
    requires forall j :: 0 <= j < |ss| && j != i ==> Stored(c, ss[j]) == Stored(b, ss[j])
    ensures TuplesIn(c, Placed(ss, i, s)) == Holding(TuplesIn(b, ss), i, Stored(c, s))
  {
    var ts := Placed(ss, i, s);
    assert forall j: nat :: j < |ss| && j != i ==> ts[j] == ss[j];
    assert ts[i] == s;
  }

  // ---- giving a slot a new place below the free space pointer ----

  /** The tuple `d` goes to the end of the free space, for slot `i`. */
  function Place(b: Page, i: nat, d: Bytes): Page
    requires Formed(b) && i <= NumSlots(b) && SlotAt(i + 1) <= PAGE_SIZE && |d| <= HeaderOf(b).free <= PAGE_SIZE
  {
    var f := HeaderOf(b).free - |d|;
    SetSlot(Splice(SetU32(b, 8, f), f, d), i, Slot(f, |d|))
  }

  predicate RoomFor(ss: seq<Slot>, free: nat, i: nat, d: Bytes)
    requires i <= |ss|
  {
    SlotAt(|Placed(ss, i, Slot(0, 0))|) + |d| <= free <= PAGE_SIZE
  }

  lemma PlaceHeader(b: Page, i: nat, d: Bytes)
    requires PageOk(b) && i <= NumSlots(b) && RoomFor(HeaderOf(b).slots, HeaderOf(b).free, i, d)
    ensures var h := HeaderOf(b); var f := h.free - |d|; var c := Place(b, i, d);
      && Formed(c) && SlotOf(c, i) == Slot(f, |d|)
      && HeaderOf(c) == h.(free := f, slots := if i < |h.slots| then h.slots[i := Slot(f, |d|)] else h.slots)
  {
    hide GetU32, PutU32, Splice;
    var f := HeaderOf(b).free - |d|;
    FreeHeader(b, f);
    DataHeader(SetU32(b, 8, f), f, d);
    SlotHeader(Splice(SetU32(b, 8, f), f, d), i, Slot(f, |d|));
  }

  /** Bytes that no write touches. */
  lemma SpliceKeeps(b: Page, at: nat, d: Bytes, lo: nat, hi: nat)
    requires at + |d| <= PAGE_SIZE && lo <= hi <= PAGE_SIZE && (hi <= at || at + |d| <= lo)
    ensures Splice(b, at, d)[lo..hi] == b[lo..hi]
  {
    hide GetU32, PutU32;
  }

  lemma SpliceHas(b: Page, at: nat, d: Bytes)
    requires at + |d| <= PAGE_SIZE
    ensures Splice(b, at, d)[at..at + |d|] == d
  {
    hide GetU32, PutU32;
  }

  lemma SetSlotKeeps(b: Page, i: nat, s: Slot, lo: nat, hi: nat)
    requires SlotAt(i + 1) <= lo <= hi <= PAGE_SIZE
    ensures SetSlot(b, i, s)[lo..hi] == b[lo..hi]
  {
    hide GetU32, PutU32;
    SpliceKeeps(b, SlotAt(i), PutU32(s.offset), lo, hi);
    SpliceKeeps(SetU32(b, SlotAt(i), s.offset), SlotAt(i) + 4, PutU32(s.length), lo, hi);
  }

  /** The new tuple is where its slot says, and the bytes above are untouched. */
  lemma PlaceBytes(b: Page, i: nat, d: Bytes)
    requires PageOk(b) && i <= NumSlots(b) && RoomFor(HeaderOf(b).slots, HeaderOf(b).free, i, d)
    ensures var free := HeaderOf(b).free; Place(b, i, d)[free - |d|..] == d + b[free..]
  {
    hide GetU32, PutU32;
    var free := HeaderOf(b).free;
    var f := free - |d|;
    var b1 := SetU32(b, 8, f);
    SpliceKeeps(b, 8, PutU32(f), free, PAGE_SIZE);
    SpliceTail(b1, f, d);
    SetSlotKeeps(Splice(b1, f, d), i, Slot(f, |d|), f, PAGE_SIZE);
  }

  lemma SpliceTail(b: Page, at: nat, d: Bytes)
    requires at + |d| <= PAGE_SIZE
    ensures Splice(b, at, d)[at..] == d + b[at + |d|..]
  {
    hide GetU32, PutU32;
  }

  /** A slot may move below everything else, if that does not make a slot too many. */
  lemma PlaceSlots(ss: seq<Slot>, free: nat, i: nat, n: nat)
    requires SlotsOk(ss, free) && i <= |ss| && n <= free && SlotAt(|Placed(ss, i, Slot(0, 0))|) + n <= free
    requires i == |ss| ==> FirstEmpty(ss, 0) == |ss|
    ensures SlotsOk(Placed(ss, i, Slot(free - n, n)), free - n)
  {
    var ts := Placed(ss, i, Slot(free - n, n));
    assert forall j :: 0 <= j < |ts| ==> ts[j] == if j == i then Slot(free - n, n) else ss[j];
    if n == 0 {
      assert ts[i].length == 0 && FirstEmpty(ts, 0) <= i;
    }
  }

  lemma SameTail(b: Page, c: Page, free: nat, lo: nat, hi: nat)
    requires free <= lo <= hi <= PAGE_SIZE && b[free..] == c[free..]
    ensures b[lo..hi] == c[lo..hi]
  {
    forall i | lo <= i < hi
      ensures b[i] == c[i]
    {
      assert b[i] == b[free..][i - free] && c[i] == c[free..][i - free];
    }
  }

  lemma StoredAbove(b: Page, c: Page, f: nat, d: Bytes, free: nat, s: Slot)
    requires f + |d| == free <= PAGE_SIZE && c[f..] == d + b[free..] && Within(s, free)
    ensures Stored(c, s) == Stored(b, s)
  {
    assert c[free..] == c[f..][|d|..] == b[free..];
    if s.length > 0 {
      SameTail(c, b, free, s.offset, s.offset + s.length);
    }
  }

  /** A tuple placed below all the others: they stay. */
  lemma PlacedTuples(b: Page, ss: seq<Slot>, free: nat, i: nat, f: nat, d: Bytes, c: Page)
    requires i <= |ss| && f + |d| == free <= PAGE_SIZE && c[f..] == d + b[free..]
    requires forall j :: 0 <= j < |ss| ==> Within(ss[j], free)
    ensures TuplesIn(c, Placed(ss, i, Slot(f, |d|))) == Holding(TuplesIn(b, ss), i, d)
  {
    forall j | 0 <= j < |ss|
      ensures Stored(c, ss[j]) == Stored(b, ss[j])
    {
      StoredAbove(b, c, f, d, free, ss[j]);
    }
    assert c[f..f + |d|] == c[f..][..|d|] == d;
    TuplesPlaced(b, ss, i, Slot(f, |d|), c);
  }

  // ---- InsertTuple ----

  predicate CanInsert(b: Page, d: Bytes)
    requires PageOk(b)
  {
    var h := HeaderOf(b);
    RoomFor(h.slots, h.free, FirstEmpty(h.slots, 0), d)
  }

  function InsertSlot(b: Page): nat
    requires PageOk(b)
  {
    FirstEmpty(HeaderOf(b).slots, 0)
  }

  function Inserted(b: Page, d: Bytes): Page
    requires PageOk(b) && CanInsert(b, d)
  {
    var i, n := InsertSlot(b), NumSlots(b);
    if i < n then Place(b, i, d) else SetU32(Place(b, i, d), 4, n + 1)
  }

  lemma InsertedHeader(b: Page, d: Bytes)
    requires PageOk(b) && CanInsert(b, d)
    ensures var h := HeaderOf(b);
      Changed(b, Placed(h.slots, InsertSlot(b), Slot(h.free - |d|, |d|)), h.free - |d|, Inserted(b, d))
  {
    hide GetU32, PutU32, Splice;
    PlaceHeader(b, InsertSlot(b), d);
    if InsertSlot(b) == NumSlots(b) {
      CountHeader(Place(b, InsertSlot(b), d), NumSlots(b) + 1);
    }
  }

  lemma InsertedBytes(b: Page, d: Bytes)
    requires PageOk(b) && CanInsert(b, d)
    ensures var free := HeaderOf(b).free; Inserted(b, d)[free - |d|..] == d + b[free..]
  {
    hide GetU32, PutU32;
    var i, n := InsertSlot(b), NumSlots(b);
    PlaceBytes(b, i, d);
    if i == n {
      SpliceKeeps(Place(b, i, d), 4, PutU32(n + 1), HeaderOf(b).free - |d|, PAGE_SIZE);
    }
  }

  lemma BecomesOk(b: Page, i: nat, d: Bytes, c: Page)
    requires PageOk(b) && i <= NumSlots(b) && (i == NumSlots(b) ==> i == InsertSlot(b))
    requires var h := HeaderOf(b); RoomFor(h.slots, h.free, i, d)
    requires var h := HeaderOf(b);
      Changed(b, Placed(h.slots, i, Slot(h.free - |d|, |d|)), h.free - |d|, c) && c[h.free - |d|..] == d + b[h.free..]
    ensures PageOk(c) && SameLinks(HeaderOf(b), HeaderOf(c)) && Tuples(c) == Holding(Tuples(b), i, d)
  {
    hide GetU32, PutU32, Splice, HeaderOf, Apart, Thin, TuplesIn, Placed, Stored;
    var h := HeaderOf(b);
    PlaceSlots(h.slots, h.free, i, |d|);
    StillOk(b, Placed(h.slots, i, Slot(h.free - |d|, |d|)), h.free - |d|, c);
    PlacedTuples(b, h.slots, h.free, i, h.free - |d|, d, c);
  }

  /** The tuple appears in a slot that had none, and every other tuple stays; an empty tuple does not count as one. */
  lemma InsertRefines(b: Page, d: Bytes)
    requires PageOk(b) && CanInsert(b, d)
    ensures PageOk(Inserted(b, d)) && SameLinks(HeaderOf(b), HeaderOf(Inserted(b, d))) && InsertSlot(b) !in Tuples(b)
    ensures Tuples(Inserted(b, d)) == Holding(Tuples(b), InsertSlot(b), d)
  {
    hide GetU32, PutU32, Splice;
    InsertedHeader(b, d);
    InsertedBytes(b, d);
    BecomesOk(b, InsertSlot(b), d, Inserted(b, d));
  }

  /** A tuple that was inserted can be read exactly if its encoding is not empty. */
  lemma InsertedReadable(b: Page, t: Tuple)
    requires PageOk(b) && CanInsert(b, EncodeTuple(t))
    ensures PageOk(Inserted(b, EncodeTuple(t)))
    ensures InsertSlot(b) in Tuples(Inserted(b, EncodeTuple(t))) <==> EncodeTuple(t) != []
  {
    hide GetU32, PutU32, Splice;
    InsertRefines(b, EncodeTuple(t));
  }

  /** A tuple without values goes into a fresh page, and is not there afterwards. */
  lemma EmptyTupleIsLost()
    ensures var b := Initial(Zeros(PAGE_SIZE), 1, INVALID_PAGE_ID);
      PageOk(b) && CanInsert(b, EncodeTuple([])) && PageOk(Inserted(b, EncodeTuple([])))
          && Tuples(Inserted(b, EncodeTuple([]))) == map[]
  {
    var b := Initial(Zeros(PAGE_SIZE), 1, INVALID_PAGE_ID);
    InitRefines(Zeros(PAGE_SIZE), 1, INVALID_PAGE_ID);
    InsertRefines(b, []);
    assert Holding(Tuples(b), 0, []) == map[];
  }

  // ---- DeleteTuple ----

  function Deleted(b: Page, i: nat): Page
    requires PageOk(b) && i < NumSlots(b)
  {
    SetSlot(b, i, Slot(0, 0))
  }

  lemma EmptiedSlots(ss: seq<Slot>, free: nat, i: nat, s: Slot)
    requires SlotsOk(ss, free) && i < |ss| && s.length == 0
    ensures SlotsOk(ss[i := s], free)
  {
    var ts := ss[i := s];
    assert forall j :: 0 <= j < |ts| ==> ts[j] == if j == i then s else ss[j];
    assert ts[i].length == 0 && FirstEmpty(ts, 0) <= i;
  }

  /** The tuple disappears and the others stay. */
  lemma DeleteRefines(b: Page, i: nat)
    requires PageOk(b) && i in Tuples(b)
    ensures PageOk(Deleted(b, i)) && Tuples(Deleted(b, i)) == Tuples(b) - {i}
    ensures var h, g := HeaderOf(b), HeaderOf(Deleted(b, i)); SameLinks(h, g)
  {
    hide GetU32, PutU32, Splice;
    DeletedHeader(b, i);
    EmptiedOk(b, i, Deleted(b, i));
  }

  lemma DeletedHeader(b: Page, i: nat)
    requires PageOk(b) && i < NumSlots(b)
    ensures var h, c := HeaderOf(b), Deleted(b, i);
      Changed(b, h.slots[i := Slot(0, 0)], h.free, c) && c[h.free..] == b[h.free..]
  {
    hide GetU32, PutU32, Splice;
    SlotHeader(b, i, Slot(0, 0));
    SetSlotKeeps(b, i, Slot(0, 0), HeaderOf(b).free, PAGE_SIZE);
  }

  lemma EmptiedOk(b: Page, i: nat, c: Page)
    requires PageOk(b) && i in Tuples(b)
    requires var h := HeaderOf(b); Changed(b, h.slots[i := Slot(0, 0)], h.free, c) && c[h.free..] == b[h.free..]
    ensures PageOk(c) && SameLinks(HeaderOf(b), HeaderOf(c)) && Tuples(c) == Tuples(b) - {i}
  {
    hide GetU32, PutU32, Splice;
    var h := HeaderOf(b);
    EmptiedSlots(h.slots, h.free, i, Slot(0, 0));
    StillOk(b, h.slots[i := Slot(0, 0)], h.free, c);
    forall j | 0 <= j < |h.slots|
      ensures Stored(c, h.slots[j]) == Stored(b, h.slots[j])
    {
      StoredAbove(b, c, h.free, [], h.free, h.slots[j]);
    }
    TuplesPlaced(b, h.slots, i, Slot(0, 0), c);
  }

  // ---- UpdateTuple ----

  /** The new tuple over the old one. */
  function Overwritten(b: Page, i: nat, d: Bytes): Page
    requires PageOk(b) && i < NumSlots(b) && HeaderOf(b).slots[i].length > 0 && |d| <= HeaderOf(b).slots[i].length
  {
    SetU32(Splice(b, HeaderOf(b).slots[i].offset, d), SlotAt(i) + 4, |d|)
  }

  lemma ShrunkSlots(ss: seq<Slot>, free: nat, i: nat, n: nat)
    requires SlotsOk(ss, free) && i < |ss| && 0 < n <= ss[i].length
    ensures SlotsOk(ss[i := ss[i].(length := n)], free)
  {
    var ts := ss[i := ss[i].(length := n)];
    assert forall j :: 0 <= j < |ts| ==> ts[j] == if j == i then ss[i].(length := n) else ss[j];
    if free + |ss| > PAGE_SIZE {
      var e := FirstEmpty(ss, 0);
      assert ts[e].length == 0 && FirstEmpty(ts, 0) <= e;
    }
  }

  lemma OverwrittenHeader(b: Page, i: nat, d: Bytes)
    requires PageOk(b) && i in Tuples(b) && |d| <= HeaderOf(b).slots[i].length
    ensures var h := HeaderOf(b); Changed(b, h.slots[i := h.slots[i].(length := |d|)], h.free, Overwritten(b, i, d))
  {
    hide GetU32, PutU32, Splice;
    var at := HeaderOf(b).slots[i].offset;
    DataOver(b, i, d);
    LengthHeader(Splice(b, at, d), i, |d|);
  }

  lemma DataOver(b: Page, i: nat, d: Bytes)
    requires PageOk(b) && i in Tuples(b) && |d| <= HeaderOf(b).slots[i].length
    ensures var at := HeaderOf(b).slots[i].offset; Formed(Splice(b, at, d)) && HeaderOf(Splice(b, at, d)) == HeaderOf(b)
  {
    hide GetU32, PutU32, Splice;
    var at := HeaderOf(b).slots[i].offset;
    if d == [] {
      assert Splice(b, at, d) == b;
    } else {
      DataHeader(b, at, d);
    }
  }

  lemma OverwrittenBytes(b: Page, i: nat, d: Bytes)
    requires PageOk(b) && i in Tuples(b) && |d| <= HeaderOf(b).slots[i].length
    ensures var h := HeaderOf(b); Overwritten(b, i, d)[h.free..] == Splice(b, h.slots[i].offset, d)[h.free..]
  {
    hide GetU32, PutU32;
    var h := HeaderOf(b);
    SpliceKeeps(Splice(b, h.slots[i].offset, d), SlotAt(i) + 4, PutU32(|d|), h.free, PAGE_SIZE);
  }

  /** Writing within one slot's bytes. */
  lemma StoredBeside(b: Page, at: nat, d: Bytes, length: nat, c: Page, free: nat, s: Slot)
    requires free <= at && |d| <= length && at + length <= PAGE_SIZE && c[free..] == Splice(b, at, d)[free..]
    requires Within(s, free) && (s.length == 0 || s.offset + s.length <= at || at + length <= s.offset)
    ensures Stored(c, s) == Stored(b, s) && c[at..at + |d|] == d
  {
    var e := Splice(b, at, d);
    if s.length > 0 {
      SameTail(c, e, free, s.offset, s.offset + s.length);
      SpliceKeeps(b, at, d, s.offset, s.offset + s.length);
    }
    SpliceHas(b, at, d);
    SameTail(c, e, free, at, at + |d|);
  }

  lemma OverwriteRefines(b: Page, i: nat, d: Bytes)
    requires PageOk(b) && i in Tuples(b) && |d| <= |Tuples(b)[i]|
    ensures PageOk(Overwritten(b, i, d)) && Tuples(Overwritten(b, i, d)) == Holding(Tuples(b), i, d)
    ensures var h, g := HeaderOf(b), HeaderOf(Overwritten(b, i, d)); SameLinks(h, g)
  {
    hide GetU32, PutU32, Splice;
    OverwrittenHeader(b, i, d);
    OverwrittenBytes(b, i, d);
    OverwrittenOk(b, i, d, Overwritten(b, i, d));
  }

  lemma OverwrittenOk(b: Page, i: nat, d: Bytes, c: Page)
    requires PageOk(b) && i in Tuples(b) && |d| <= HeaderOf(b).slots[i].length
    requires var h := HeaderOf(b); var s := h.slots[i];
      && Changed(b, h.slots[i := s.(length := |d|)], h.free, c)
      && c[h.free..] == Splice(b, s.offset, d)[h.free..]
    ensures PageOk(c) && SameLinks(HeaderOf(b), HeaderOf(c)) && Tuples(c) == Holding(Tuples(b), i, d)
  {
    hide GetU32, PutU32, Splice;
    var h := HeaderOf(b);
    var s := h.slots[i];
    var t := s.(length := |d|);
    if d == [] {
      EmptiedSlots(h.slots, h.free, i, t);
    } else {
      ShrunkSlots(h.slots, h.free, i, |d|);
    }
    StillOk(b, h.slots[i := t], h.free, c);
    OverwrittenStored(b, h.slots, h.free, i, d, c);
    TuplesPlaced(b, h.slots, i, t, c);
  }

  lemma OverwrittenStored(b: Page, ss: seq<Slot>, free: nat, i: nat, d: Bytes, c: Page)
    requires SlotsOk(ss, free) && i < |ss| && 0 < ss[i].length && |d| <= ss[i].length
    requires c[free..] == Splice(b, ss[i].offset, d)[free..]
    ensures Stored(c, ss[i].(length := |d|)) == d
    ensures forall j :: 0 <= j < |ss| && j != i ==> Stored(c, ss[j]) == Stored(b, ss[j])
  {
    var at, length := ss[i].offset, ss[i].length;
    StoredBeside(b, at, d, length, c, free, Slot(0, 0));
    forall j | 0 <= j < |ss| && j != i
      ensures Stored(c, ss[j]) == Stored(b, ss[j])
    {
      assert Apart(ss[j], ss[i]);
      StoredBeside(b, at, d, length, c, free, ss[j]);
    }
  }

  lemma RelocateRefines(b: Page, i: nat, d: Bytes)
    requires PageOk(b) && i in Tuples(b) && RoomFor(HeaderOf(b).slots, HeaderOf(b).free, i, d)
    ensures PageOk(Place(b, i, d)) && Tuples(Place(b, i, d)) == Holding(Tuples(b), i, d)
    ensures var h, g := HeaderOf(b), HeaderOf(Place(b, i, d)); SameLinks(h, g)
  {
    hide GetU32, PutU32, Splice;
    PlaceHeader(b, i, d);
    PlaceBytes(b, i, d);
    BecomesOk(b, i, d, Place(b, i, d));
  }

  ghost predicate CanUpdate(b: Page, i: nat, d: Bytes)
    requires PageOk(b)
  {
    i in Tuples(b) && (|d| <= |Tuples(b)[i]| || RoomFor(HeaderOf(b).slots, HeaderOf(b).free, i, d))
  }

  ghost function Updated(b: Page, i: nat, d: Bytes): Page
    requires PageOk(b) && CanUpdate(b, i, d)
  {
    if |d| <= HeaderOf(b).slots[i].length then Overwritten(b, i, d) else Place(b, i, d)
  }

  /** The slot holds the new tuple and the others stay. */
  lemma UpdateRefines(b: Page, i: nat, d: Bytes)
    requires PageOk(b) && CanUpdate(b, i, d)
    ensures PageOk(Updated(b, i, d)) && Tuples(Updated(b, i, d)) == Holding(Tuples(b), i, d)
    ensures var h, g := HeaderOf(b), HeaderOf(Updated(b, i, d)); SameLinks(h, g)
  {
    hide GetU32, PutU32, Splice;
    if |d| <= HeaderOf(b).slots[i].length {
      OverwriteRefines(b, i, d);
    } else {
      RelocateRefines(b, i, d);
    }
  }

  // ---- Init and SetNextPageId ----

  function Initial(b: Page, id: U32, prev: U32): Page {
    SetU32(SetU32(SetU32(SetU32(SetU32(b, 0, id), 4, 0), 8, PAGE_SIZE), 12, prev), 16, INVALID_PAGE_ID)
  }

  lemma InitRefines(b: Page, id: U32, prev: U32)
    ensures PageOk(Initial(b, id, prev)) && Tuples(Initial(b, id, prev)) == map[]
    ensures HeaderOf(Initial(b, id, prev)) == Header(id, [], PAGE_SIZE, prev, INVALID_PAGE_ID)
  {
    hide GetU32, PutU32, Splice;
    var b0 := SetU32(b, 0, id);
    var b1 := SetU32(b0, 4, 0);
    var b2 := SetU32(b1, 8, PAGE_SIZE);
    var b3 := SetU32(b2, 12, prev);
    U32Written(b, 0, id);
    U32Written(b0, 4, 0);
    U32Written(b1, 8, PAGE_SIZE);
    U32Written(b2, 12, prev);
    U32Written(b3, 16, INVALID_PAGE_ID);
    InitKept(b0, b1, b2, b3, prev);
  }

  lemma InitKept(b0: Page, b1: Page, b2: Page, b3: Page, prev: U32)
    requires b1 == SetU32(b0, 4, 0) && b2 == SetU32(b1, 8, PAGE_SIZE) && b3 == SetU32(b2, 12, prev)
    ensures var b4 := SetU32(b3, 16, INVALID_PAGE_ID);
      && GetU32(b4, 0) == GetU32(b0, 0) && GetU32(b4, 4) == GetU32(b1, 4)
      && GetU32(b4, 8) == GetU32(b2, 8) && GetU32(b4, 12) == GetU32(b3, 12)
  {
    hide GetU32, PutU32, Splice;
    SetOther(b0, 4, 0, 0);
    SetOther(b1, 8, PAGE_SIZE, 0);
    SetOther(b2, 12, prev, 0);
    SetOther(b3, 16, INVALID_PAGE_ID, 0);
    SetOther(b1, 8, PAGE_SIZE, 4);
    SetOther(b2, 12, prev, 4);
    SetOther(b3, 16, INVALID_PAGE_ID, 4);
    SetOther(b2, 12, prev, 8);
    SetOther(b3, 16, INVALID_PAGE_ID, 8);
    SetOther(b3, 16, INVALID_PAGE_ID, 12);
  }

  lemma NextRefines(b: Page, next: U32)
    requires PageOk(b)
    ensures PageOk(SetU32(b, 16, next)) && Tuples(SetU32(b, 16, next)) == Tuples(b)
    ensures HeaderOf(SetU32(b, 16, next)) == HeaderOf(b).(next := next)
  {
    hide GetU32, PutU32, Splice;
    var h, c := HeaderOf(b), SetU32(b, 16, next);
    NextHeader(b, next);
    forall j | 0 <= j < |h.slots|
      ensures Stored(c, h.slots[j]) == Stored(b, h.slots[j])
    {
      if h.slots[j].length > 0 {
        SpliceKeeps(b, 16, PutU32(next), h.slots[j].offset, h.slots[j].offset + h.slots[j].length);
      }
    }
  }

  /** What the fields of a slot say. */
  lemma SlotFields(b: Page, i: nat)
    requires PageOk(b)
    ensures GetU32(b, 8) == HeaderOf(b).free && SlotAt(NumSlots(b)) <= GetU32(b, 8) <= PAGE_SIZE
    ensures i in Tuples(b) <==> i < NumSlots(b) && GetU32(b, SlotAt(i) + 4) != 0
    ensures i < NumSlots(b) ==>
      SlotAt(i + 1) <= PAGE_SIZE && HeaderOf(b).slots[i] == Slot(GetU32(b, SlotAt(i)), GetU32(b, SlotAt(i) + 4))
    ensures i in Tuples(b) ==> |Tuples(b)[i]| == GetU32(b, SlotAt(i) + 4)
    ensures i in Tuples(b) ==> var at, n := GetU32(b, SlotAt(i)), GetU32(b, SlotAt(i) + 4);
      at + n <= PAGE_SIZE && Tuples(b)[i] == b[at..at + n]
  {
    hide GetU32, PutU32, Splice;
    assert HeaderOf(b).slots == seq(NumSlots(b), j requires 0 <= j < NumSlots(b) => SlotOf(b, j));
    if i < NumSlots(b) {
      assert HeaderOf(b).slots[i] == SlotOf(b, i);
    }
  }

  // ---- the same over the fields of the page ----

  /** The length field of slot `i`. */
  function SlotLength(b: Page, i: nat): U32 {
    if 28 + 8 * i <= PAGE_SIZE then GetU32(b, 24 + 8 * i) else 0
  }

  /** `n` bytes, and a slot unless one is free, fit between the slots and the tuples. */
  ghost predicate Takes(b: Page, n: nat) {
    n + (if exists i: nat :: i < GetU32(b, 4) && SlotLength(b, i) == 0 then 0 else 8) <=
      GetU32(b, 8) - (20 + 8 * GetU32(b, 4))
  }

  lemma SlotLengths(b: Page)
    requires PageOk(b)
    ensures forall i: nat :: i < NumSlots(b) ==> SlotLength(b, i) == HeaderOf(b).slots[i].length
  {
    hide GetU32;
  }

  lemma FirstFree(b: Page)
    requires PageOk(b)
    ensures InsertSlot(b) < NumSlots(b) <==> exists i: nat :: i < GetU32(b, 4) && SlotLength(b, i) == 0
    ensures forall i: nat :: i < InsertSlot(b) ==> SlotLength(b, i) != 0
    ensures InsertSlot(b) < NumSlots(b) ==> SlotLength(b, InsertSlot(b)) == 0
  {
    hide GetU32, SlotLength, SlotsOk;
    SlotLengths(b);
  }

  lemma CanInsertIs(b: Page, d: Bytes)
    requires PageOk(b)
    ensures CanInsert(b, d) <==> Takes(b, |d|)
  {
    hide GetU32, SlotLength;
    FirstFree(b);
  }

  lemma CanUpdateIs(b: Page, i: nat, d: Bytes)
    requires PageOk(b)
    ensures CanUpdate(b, i, d) <==>
      && i < GetU32(b, 4) && SlotLength(b, i) != 0
      && (|d| <= SlotLength(b, i) || |d| <= GetU32(b, 8) - (20 + 8 * GetU32(b, 4)))
  {
    hide GetU32;
    SlotFields(b, i);
  }

  /** Where an inserted tuple goes. */
  lemma InsertedFields(b: Page, d: Bytes)
    requires PageOk(b) && CanInsert(b, d)
    ensures var c, i := Inserted(b, d), InsertSlot(b);
      && GetU32(c, 8) == GetU32(b, 8) - |d| && 28 + 8 * i <= PAGE_SIZE
      && GetU32(c, 4) == (if i < GetU32(b, 4) then GetU32(b, 4) else GetU32(b, 4) + 1)
      && GetU32(c, 20 + 8 * i) == GetU32(c, 8) && GetU32(c, 24 + 8 * i) == |d|
  {
    hide GetU32, PutU32, Splice, TuplesIn, SlotsOk;
    InsertRefines(b, d);
    InsertedHeader(b, d);
    SlotFields(b, InsertSlot(b));
    SlotFields(Inserted(b, d), InsertSlot(b));
  }

  /** Where an updated tuple goes. */
  lemma UpdatedFields(b: Page, i: nat, d: Bytes)
    requires PageOk(b) && CanUpdate(b, i, d)
    ensures var c := Updated(b, i, d);
      && 28 + 8 * i <= PAGE_SIZE && GetU32(c, 4) == GetU32(b, 4) && GetU32(c, 24 + 8 * i) == |d|
      && if |d| <= SlotLength(b, i) then
           GetU32(c, 8) == GetU32(b, 8) && GetU32(c, 20 + 8 * i) == GetU32(b, 20 + 8 * i)
         else
           GetU32(c, 8) == GetU32(b, 8) - |d| && GetU32(c, 20 + 8 * i) == GetU32(c, 8)
  {
    hide GetU32, PutU32, Splice;
    UpdateRefines(b, i, d);
    SlotFields(b, i);
    SlotFields(Updated(b, i, d), i);
    if |d| <= HeaderOf(b).slots[i].length {
      OverwrittenHeader(b, i, d);
    } else {
      PlaceHeader(b, i, d);
    }
  }

  /** The space of a deleted tuple is not reclaimed. */
  lemma DeletedFields(b: Page, i: nat)
    requires PageOk(b) && i in Tuples(b)
    ensures var c := Deleted(b, i);
      && 28 + 8 * i <= PAGE_SIZE && GetU32(c, 4) == GetU32(b, 4) && GetU32(c, 8) == GetU32(b, 8)
      && GetU32(c, 20 + 8 * i) == 0 && GetU32(c, 24 + 8 * i) == 0
  {
    hide GetU32, PutU32, Splice;
    DeleteRefines(b, i);
    DeletedHeader(b, i);
    SlotFields(b, i);
    SlotFields(Deleted(b, i), i);
  }

  // ---- the page as the code sees it ----

  /** A page in a frame. */
  class TablePage {
    const data: array<Byte>

    ghost predicate Valid()
      reads data
    {
      data.Length == PAGE_SIZE && PageOk(data[..])
    }

    /** The tuples by slot number. */
    ghost function Contents(): map<nat, Bytes>
      requires Valid()
      reads data
    {
      Tuples(data[..])
    }

    constructor (data: array<Byte>)
      ensures this.data == data
    {
      this.data := data;
    }

    function Field(at: nat): U32
      requires at + 4 <= data.Length
      reads data
    {
      GetU32(data[..], at)
    }

    method SetField(at: nat, x: U32)
      requires at + 4 <= data.Length == PAGE_SIZE
      modifies data
      ensures data[..] == SetU32(old(data[..]), at, x)
    {
      Copy(data, at, PutU32(x));
    }

    method Init(pageId: U32, prev: U32)
      requires data.Length == PAGE_SIZE
      modifies data
      ensures data[..] == Initial(old(data[..]), pageId, prev)
      ensures Valid() && Contents() == map[]
      ensures Field(0) == pageId && Field(4) == 0 && Field(8) == PAGE_SIZE && Field(12) == prev
      ensures Field(16) == INVALID_PAGE_ID
    {
      hide GetU32, PutU32, Splice;
      InitRefines(data[..], pageId, prev);
      SetField(0, pageId);
      SetField(4, 0);
      SetField(8, PAGE_SIZE);
      SetField(12, prev);
      SetField(16, INVALID_PAGE_ID);
    }

    method SetNextPageId(next: U32)
      requires Valid()
      modifies data
      ensures Valid() && data[..] == SetU32(old(data[..]), 16, next) && Contents() == old(Contents())
    {
      hide GetU32, PutU32, Splice;
      NextRefines(data[..], next);
      SetField(16, next);
    }

    /** The first slot without a tuple, or the number of slots. */
    method FindFreeSlot() returns (i: nat)
      requires Valid()
      ensures i == InsertSlot(data[..])
    {
      hide GetU32, PutU32, Splice;
      ghost var ss := HeaderOf(data[..]).slots;
      i := 0;
      while i < Field(4) && Field(SlotAt(i) + 4) != 0
        invariant i <= |ss| && forall j :: 0 <= j < i ==> ss[j].length != 0
      {
        i := i + 1;
      }
      assert i < |ss| ==> ss[i].length == 0;
    }

    method SetSlotFields(i: nat, offset: U32, length: U32)
      requires data.Length == PAGE_SIZE && SlotAt(i + 1) <= PAGE_SIZE
      modifies data
      ensures data[..] == SetSlot(old(data[..]), i, Slot(offset, length))
    {
      hide GetU32, PutU32, Splice;
      SetField(SlotAt(i), offset);
      SetField(SlotAt(i) + 4, length);
    }

    /** The tuple goes just below the others. */
    method PlaceTuple(i: nat, t: Tuple)
      requires Valid() && i <= NumSlots(data[..])
      requires RoomFor(HeaderOf(data[..]).slots, HeaderOf(data[..]).free, i, EncodeTuple(t))
      modifies data
      ensures data[..] == Place(old(data[..]), i, EncodeTuple(t))
    {
      hide GetU32, PutU32, Splice, HeaderOf, SlotsOk, EncodeTuple, SetSlot, SetU32, TotalLength, Stands, LengthOf;
      SlotFields(data[..], i);
      var length := GetSerializedLength(t);
      var f := Field(8) - length;
      SetField(8, f);
      Serialize(t, data, f);
      SetSlotFields(i, f, length);
    }

    /** The bytes between the slots and the tuples; `current_free_boundary` in the code. */
    method FreeSpace() returns (n: nat)
      requires Valid()
      ensures n == HeaderOf(data[..]).free - SlotAt(NumSlots(data[..]))
    {
      hide GetU32, PutU32, Splice;
      n := Field(8) - SlotAt(Field(4));
    }

    /** The first free slot gets the tuple. */
    method Fill(slot: nat, t: Tuple)
      requires Valid() && CanInsert(data[..], EncodeTuple(t)) && slot == InsertSlot(data[..])
      modifies data
      ensures Valid() && data[..] == Inserted(old(data[..]), EncodeTuple(t))
      ensures slot !in old(Contents()) && Contents() == Holding(old(Contents()), slot, EncodeTuple(t))
    {
      hide GetU32, PutU32, Splice;
      InsertRefines(data[..], EncodeTuple(t));
      var n := Field(4);
      PlaceTuple(slot, t);
      if slot == n {
        SetField(4, n + 1);
      }
    }

    /** Fails exactly if there is no room; afterwards a slot that held nothing holds the tuple. */
    method InsertTuple(t: Tuple) returns (ok: bool, slot: nat)
      requires Valid() && |EncodeTuple(t)| + 8 <= 0xFFFF_FFFF
      modifies data
      ensures Valid() && (ok <==> CanInsert(old(data[..]), EncodeTuple(t)))
      ensures data[..] == if ok then Inserted(old(data[..]), EncodeTuple(t)) else old(data[..])
      ensures ok ==> slot == InsertSlot(old(data[..])) && slot !in old(Contents())
      ensures Contents() == if ok then Holding(old(Contents()), slot, EncodeTuple(t)) else old(Contents())
      ensures var b := old(data[..]);
        ok <==>
        TotalLength(t) + (if exists i: nat :: i < GetU32(b, 4) && SlotLength(b, i) == 0 then 0 else 8) <=
        GetU32(b, 8) - (20 + 8 * GetU32(b, 4))
      ensures ok ==> var b := old(data[..]);
        && (forall i: nat :: i < slot ==> SlotLength(b, i) != 0)
        && (if slot < GetU32(b, 4) then SlotLength(b, slot) == 0 else slot == GetU32(b, 4))
        && Field(4) == (if slot < GetU32(b, 4) then GetU32(b, 4) else GetU32(b, 4) + 1)
      ensures ok ==>
        && 28 + 8 * slot <= data.Length && Field(8) == GetU32(old(data[..]), 8) - TotalLength(t)
        && Field(20 + 8 * slot) == Field(8) && Field(24 + 8 * slot) == TotalLength(t)
    {
      hide GetU32, PutU32, Splice, Inserted, PageOk, TotalLength, Stands, EncodeTuple;
      ghost var b := data[..];
      CanInsertIs(b, EncodeTuple(t));
      EncodeTupleIs(t);
      FirstFree(b);
      ok, slot := InsertIfRoom(t);
      if ok {
        InsertedFields(b, EncodeTuple(t));
      }
    }

    method InsertIfRoom(t: Tuple) returns (ok: bool, slot: nat)
      requires Valid() && |EncodeTuple(t)| + 8 <= 0xFFFF_FFFF
      modifies data
      ensures Valid() && (ok <==> CanInsert(old(data[..]), EncodeTuple(t)))
      ensures data[..] == if ok then Inserted(old(data[..]), EncodeTuple(t)) else old(data[..])
      ensures ok ==> slot == InsertSlot(old(data[..])) && slot !in old(Contents())
      ensures Contents() == if ok then Holding(old(Contents()), slot, EncodeTuple(t)) else old(Contents())
    {
      hide GetU32, PutU32, Splice;
      var length := GetSerializedLength(t);
      slot := FindFreeSlot();
      var needed := length + if slot < Field(4) then 0 else 8;
      var space := FreeSpace();
      ok := needed <= space;
      if ok {
        Fill(slot, t);
      }
    }

    /** Fails exactly on a slot that holds nothing. */
    method GetTuple(slot: nat, schema: Schema, ghost t: Tuple) returns (ok: bool, r: Tuple)
      requires Valid()
      requires slot in Contents() ==> Matches(t, schema) && Contents()[slot] == EncodeTuple(t)
      ensures ok <==> slot in Contents()
      ensures ok <==> slot < Field(4) && SlotLength(data[..], slot) != 0
      ensures ok ==> r == t
    {
      hide GetU32, PutU32, Splice, HeaderOf, SlotsOk, Join, EncodeTuple, DecodeTuple, TuplesIn;
      SlotFields(data[..], slot);
      if slot >= Field(4) || Field(SlotAt(slot) + 4) == 0 {
        return false, [];
      }
      var at := Field(SlotAt(slot));
      TupleRoundTrip(t, schema, data[..], at);
      r := Deserialize(data[..], at, schema);
      ok := true;
    }

    /** Fails exactly on a slot that holds nothing. */
    method DeleteTuple(slot: nat) returns (ok: bool)
      requires Valid()
      modifies data
      ensures Valid() && (ok <==> slot in old(Contents()))
      ensures data[..] == if ok then Deleted(old(data[..]), slot) else old(data[..])
      ensures Contents() == old(Contents()) - {slot}
      ensures ok <==> slot < GetU32(old(data[..]), 4) && SlotLength(old(data[..]), slot) != 0
      ensures Field(4) == GetU32(old(data[..]), 4) && Field(8) == GetU32(old(data[..]), 8)
      ensures ok ==> 28 + 8 * slot <= data.Length && Field(20 + 8 * slot) == 0 && Field(24 + 8 * slot) == 0
    {
      hide GetU32, PutU32, Splice, HeaderOf, SlotsOk, TuplesIn;
      SlotFields(data[..], slot);
      if slot in Contents() {
        DeletedFields(data[..], slot);
      }
      if slot >= Field(4) || Field(SlotAt(slot) + 4) == 0 {
        assert Contents() - {slot} == Contents();
        return false;
      }
      DeleteRefines(data[..], slot);
      SetSlotFields(slot, 0, 0);
      ok := true;
    }

    /** The new tuple is no longer than the old one. */
    method Overwrite(slot: nat, t: Tuple)
      requires Valid() && slot in Contents() && |EncodeTuple(t)| <= HeaderOf(data[..]).slots[slot].length
      modifies data
      ensures Valid() && data[..] == Updated(old(data[..]), slot, EncodeTuple(t))
      ensures Contents() == Holding(old(Contents()), slot, EncodeTuple(t))
    {
      hide GetU32, PutU32, Splice, HeaderOf, SlotsOk, TuplesIn, EncodeTuple, TotalLength, Stands, LengthOf;
      SlotFields(data[..], slot);
      OverwriteRefines(data[..], slot, EncodeTuple(t));
      var length := GetSerializedLength(t);
      Serialize(t, data, Field(SlotAt(slot)));
      SetField(SlotAt(slot) + 4, length);
    }

    /** The new tuple is longer than the old one. */
    method Relocate(slot: nat, t: Tuple)
      requires Valid() && slot in Contents() && |EncodeTuple(t)| > HeaderOf(data[..]).slots[slot].length
      requires RoomFor(HeaderOf(data[..]).slots, HeaderOf(data[..]).free, slot, EncodeTuple(t))
      modifies data
      ensures Valid() && data[..] == Updated(old(data[..]), slot, EncodeTuple(t))
      ensures Contents() == Holding(old(Contents()), slot, EncodeTuple(t))
    {
      hide GetU32, PutU32, Splice;
      RelocateRefines(data[..], slot, EncodeTuple(t));
      PlaceTuple(slot, t);
    }

    /** Fails on a slot that holds nothing and for want of room. */
    method UpdateTuple(slot: nat, t: Tuple) returns (ok: bool)
      requires Valid() && |EncodeTuple(t)| <= 0xFFFF_FFFF
      modifies data
      ensures Valid() && (ok <==> CanUpdate(old(data[..]), slot, EncodeTuple(t)))
      ensures data[..] == if ok then Updated(old(data[..]), slot, EncodeTuple(t)) else old(data[..])
      ensures Contents() == if ok then Holding(old(Contents()), slot, EncodeTuple(t)) else old(Contents())
      ensures var b, n := old(data[..]), TotalLength(t);
        ok <==>
        && slot < GetU32(b, 4) && SlotLength(b, slot) != 0
        && (n <= SlotLength(b, slot) || n <= GetU32(b, 8) - (20 + 8 * GetU32(b, 4)))
      ensures ok ==> var b, n := old(data[..]), TotalLength(t);
        && 28 + 8 * slot <= data.Length && Field(4) == GetU32(b, 4) && Field(24 + 8 * slot) == n
        && if n <= SlotLength(b, slot) then
             Field(8) == GetU32(b, 8) && Field(20 + 8 * slot) == GetU32(b, 20 + 8 * slot)
           else
             Field(8) == GetU32(b, 8) - n && Field(20 + 8 * slot) == Field(8)
    {
      hide GetU32, PutU32, Splice, Updated, PageOk;
      ghost var b := data[..];
      CanUpdateIs(b, slot, EncodeTuple(t));
      EncodeTupleIs(t);
      ok := UpdateIfRoom(slot, t);
      if ok {
        UpdatedFields(b, slot, EncodeTuple(t));
      }
    }

    method UpdateIfRoom(slot: nat, t: Tuple) returns (ok: bool)
      requires Valid() && |EncodeTuple(t)| <= 0xFFFF_FFFF
      modifies data
      ensures Valid() && (ok <==> CanUpdate(old(data[..]), slot, EncodeTuple(t)))
      ensures data[..] == if ok then Updated(old(data[..]), slot, EncodeTuple(t)) else old(data[..])
      ensures Contents() == if ok then Holding(old(Contents()), slot, EncodeTuple(t)) else old(Contents())
    {
      hide GetU32, PutU32, Splice, HeaderOf, SlotsOk, TuplesIn;
      SlotFields(data[..], slot);
      if slot >= Field(4) || Field(SlotAt(slot) + 4) == 0 {
        return false;
      }
      var length := GetSerializedLength(t);
      if length <= Field(SlotAt(slot) + 4) {
        Overwrite(slot, t);
        return true;
      }
      var space := FreeSpace();
      ok := length <= space;
      if ok {
        Relocate(slot, t);
      }
    }
  }
}

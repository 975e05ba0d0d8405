/**
 Client handlers over one buffer pool (storage_service.cpp). Every pool call is one step, under the pool's latch;
 copying a page to or from its frame is one step; the steps of different clients interleave freely.
 */
module StorageServices {
  import opened Types
  import opened ByteCodes
  import opened Replacers
  import opened PageStores
  import opened BufferPools
  import opened Runs

  /** Where a handler is in its request; a holder has the frame the pool gave it. */
  datatype Client =
    | Idle
    | Reading(id: PageId, frame: FrameId)
    | HasRead(id: PageId, frame: FrameId, data: Bytes)
    | Writing(id: PageId, frame: FrameId, data: Bytes)
    | Written(id: PageId, frame: FrameId)
    | Allocated(id: PageId, frame: FrameId)
  {
    predicate Holds(page: PageId) {
      !Idle? && id == page
    }
  }

  /** The pool, the live pages of the disk, and the handlers, one per client. */
  datatype System = System(pool: Pool, disk: map<PageId, Bytes>, clients: seq<Client>)

  datatype Event =
    | StartRead(id: PageId)
    | CopyOut
    | EndRead
    | StartWrite(id: PageId, data: Bytes)
    | CopyIn
    | EndWrite
    | StartAllocate
    | EndAllocate
    | Deallocate(id: PageId)
    | Background

  /** The pool moves as the contract of a pool call allows. */
  ghost predicate PoolMoves(s: System, t: System) {
    s.pool.Mapped() && t.pool.Ok(t.disk, -1) && InPlace(s.pool, t.pool) && |t.pool.frames| == |s.pool.frames|
  }

  ghost function Seen(s: System): Store<Bytes>
    requires s.pool.Mapped()
  {
    AsStore(s.pool, s.disk)
  }

  /** Client `i` sends a request, or goes on with it. */
  ghost predicate Step(s: System, i: nat, e: Event, t: System)
    requires i < |s.clients|
  {
    var c := s.clients[i];
    s.pool.Mapped() && t.pool.Mapped() &&
    match e
    case StartRead(id) => c.Idle? && id in Seen(s).pages && Begins(s, i, e, t)
    case StartWrite(id, data) => c.Idle? && id in Seen(s).pages && |data| == PAGE_SIZE && Begins(s, i, e, t)
    case CopyOut =>
      && c.Reading? && c.frame < |s.pool.frames|
      && t == s.(clients := s.clients[i := HasRead(c.id, c.frame, s.pool.frames[c.frame].data)])
    case CopyIn =>
      && c.Writing? && c.frame < |s.pool.frames|
      && t == System(ThroughPointer(s.pool, c.frame, c.id, c.data), s.disk,
                     s.clients[i := Written(c.id, c.frame)])
    case EndRead => c.HasRead? && Ends(s, i, false, t)
    case EndWrite => c.Written? && Ends(s, i, true, t)
    case EndAllocate => c.Allocated? && Ends(s, i, true, t)
    case StartAllocate => c.Idle? && Allocates(s, i, t)
    case Deallocate(id) =>
      && c.Idle? && id in Seen(s).pages && PoolMoves(s, t) && t.clients == s.clients
      && exists ok :: Deletes(Seen(s), id, ok, Seen(t))
    case Background =>
      PoolMoves(s, t) && Seen(t) == Seen(s) && t.clients == s.clients
  }

  predicate Opens(e: Event) {
    e.StartRead? || e.StartWrite?
  }

  /** The handler once it has its frame. */
  function Holding(e: Event, f: FrameId): Client
    requires Opens(e)
  {
    if e.StartRead? then Reading(e.id, f) else Writing(e.id, f, e.data)
  }

  /** FetchPage; on failure the client is told so and the request is over. */
  ghost predicate Begins(s: System, i: nat, e: Event, t: System)
    requires i < |s.clients| && s.pool.Mapped() && t.pool.Mapped() && Opens(e)
  {
    && PoolMoves(s, t)
    && exists ok ::
         && Fetches(Seen(s), e.id, ok, Seen(t))
         && (ok ==> e.id in t.pool.table)
         && t.clients == if ok then s.clients[i := Holding(e, t.pool.table[e.id])] else s.clients
  }

  /** NewPage. */
  ghost predicate Allocates(s: System, i: nat, t: System)
    requires i < |s.clients| && s.pool.Mapped() && t.pool.Mapped()
  {
    && PoolMoves(s, t)
    && exists ok, id ::
         && Creates(Seen(s), Zeros(PAGE_SIZE), ok, id, Seen(t))
         && (ok ==> id in t.pool.table)
         && t.clients == if ok then s.clients[i := Allocated(id, t.pool.table[id])] else s.clients
  }

  /** UnpinPage, always called by a holder of the page. */
  ghost predicate Ends(s: System, i: nat, dirty: bool, t: System)
    requires i < |s.clients| && !s.clients[i].Idle? && s.pool.Mapped() && t.pool.Mapped()
  {
    && PoolMoves(s, t)
    && Unpins(Seen(s), s.clients[i].id, dirty, true, Seen(t))
    && t.clients == s.clients[i := Idle]
  }

  /** memcpy into the frame a client was given. */
  function ThroughPointer(p: Pool, f: FrameId, id: PageId, data: Bytes): Pool
    requires f < |p.frames|
  {
    p.(frames := p.frames[f := p.frames[f].(data := data)], unsaved := p.unsaved + {id})
  }

  // ---- counting holders ----

  function Holders(cs: seq<Client>, id: PageId): nat {
    if cs == [] then 0 else Holders(cs[..|cs| - 1], id) + if cs[|cs| - 1].Holds(id) then 1 else 0
  }

  lemma {:induction false} HoldersUpdate(cs: seq<Client>, i: nat, c: Client, id: PageId)
    requires i < |cs|
    ensures Holders(cs[i := c], id) == Holders(cs, id) - (if cs[i].Holds(id) then 1
        else 0) + (if c.Holds(id) then 1 else 0)
  {
    if i == |cs| - 1 {
      assert cs[i := c][..i] == cs[..i];
    } else {
      assert cs[i := c][..|cs| - 1] == cs[..|cs| - 1][i := c];
      HoldersUpdate(cs[..|cs| - 1], i, c, id);
    }
  }

  /** Two clients hold what two clients hold. */
  lemma {:induction false} HoldersAtLeast(cs: seq<Client>, i: nat, j: nat, id: PageId)
    requires i < |cs| && j < |cs| && cs[i].Holds(id) && cs[j].Holds(id)
    ensures Holders(cs, id) >= if i == j then 1 else 2
  {
    HoldersUpdate(cs, i, Idle, id);
    if i != j {
      HoldersUpdate(cs[i := Idle], j, Idle, id);
    }
  }

  lemma {:induction false} HoldersIdle(cs: seq<Client>, id: PageId)
    requires forall i :: 0 <= i < |cs| ==> !cs[i].Holds(id)
    ensures Holders(cs, id) == 0
  {
    if cs != [] {
      HoldersIdle(cs[..|cs| - 1], id);
    }
  }

  // ---- the invariant ----

  /** Every pin is a handler's, and every handler's page is still in the frame the handler was given. */
  ghost predicate Held(pins: Pins, table: Table, cs: seq<Client>) {
    && (forall id :: PinCount(pins, id) == Holders(cs, id))
    && (forall i :: 0 <= i < |cs| && !cs[i].Idle? ==> cs[i].id in table && table[cs[i].id] == cs[i].frame)
  }

  /** The clients that will release a page as dirty. */
  predicate Changer(c: Client, id: PageId) {
    (c.Written? || c.Allocated?) && c.id == id
  }

  ghost predicate Attended(unsaved: set<PageId>, cs: seq<Client>) {
    forall id :: id in unsaved ==> exists i :: 0 <= i < |cs| && Changer(cs[i], id)
  }

  ghost predicate Sized(cs: seq<Client>) {
    forall i :: 0 <= i < |cs| && cs[i].Writing? ==> |cs[i].data| == PAGE_SIZE
  }

  ghost predicate Served(st: Store<Bytes>, table: Table, cs: seq<Client>) {
    && Held(st.pins, table, cs)
    && Attended(st.unsaved, cs)
    && Sized(cs)
    && INVALID_PAGE_ID !in st.pages
  }

  ghost predicate Inv(s: System) {
    s.pool.Ok(s.disk, -1) && Served(Seen(s), s.pool.table, s.clients)
  }

  ghost predicate Init(s: System) {
    && s.pool.Ok(s.disk, -1) && INVALID_PAGE_ID !in Seen(s).pages && Seen(s).pins == map[]
    && forall i :: 0 <= i < |s.clients| ==> s.clients[i].Idle?
  }

  lemma InitInv(s: System)
    requires Init(s)
    ensures Inv(s)
  {
    forall id
      ensures PinCount(Seen(s).pins, id) == Holders(s.clients, id)
    {
      HoldersIdle(s.clients, id);
    }
    assert s.pool.unsaved <= {};
  }

  // ---- what keeps the clients served ----

  ghost predicate Stays(pins: Pins, table: Table, table2: Table)
    requires pins.Keys <= table.Keys
  {
    forall id :: id in pins ==> id in table2 && table2[id] == table[id]
  }

  /** A handler's page is pinned. */
  lemma HolderPins(pins: Pins, table: Table, cs: seq<Client>, i: nat)
    requires Held(pins, table, cs) && i < |cs| && !cs[i].Idle?
    ensures cs[i].id in pins && cs[i].id in table && table[cs[i].id] == cs[i].frame
  {
    HoldersAtLeast(cs, i, i, cs[i].id);
  }

  /** Client `i` changes its state and the pool counts it; the others keep their frames. */
  lemma HeldKept(pins: Pins, table: Table, cs: seq<Client>, i: nat, c: Client, pins2: Pins, table2: Table)
    requires Held(pins, table, cs) && i < |cs| && pins.Keys <= table.Keys && Stays(pins, table, table2)
    requires forall id :: PinCount(pins2, id) ==
                          PinCount(pins, id) - (if cs[i].Holds(id) then 1 else 0) + (if c.Holds(id) then 1 else 0)
    requires !c.Idle? ==> c.id in table2 && table2[c.id] == c.frame
    ensures Held(pins2, table2, cs[i := c])
  {
    forall id
      ensures PinCount(pins2, id) == Holders(cs[i := c], id)
    {
      HoldersUpdate(cs, i, c, id);
    }
    forall j | 0 <= j < |cs| && j != i && !cs[j].Idle?
      ensures cs[j].id in table2 && table2[cs[j].id] == cs[j].frame
    {
      HolderPins(pins, table, cs, j);
    }
  }

  lemma AttendedKept(unsaved: set<PageId>, cs: seq<Client>, i: nat, c: Client, now: set<PageId>)
    requires Attended(unsaved, cs) && i < |cs|
    requires forall id :: id in now ==> Changer(c, id) || (id in unsaved && !Changer(cs[i], id))
    ensures Attended(now, cs[i := c])
  {
    var cs2 := cs[i := c];
    forall id | id in now
      ensures exists j :: 0 <= j < |cs2| && Changer(cs2[j], id)
    {
      if Changer(c, id) {
        assert Changer(cs2[i], id);
      } else {
        var j :| 0 <= j < |cs| && Changer(cs[j], id);
        assert Changer(cs2[j], id);
      }
    }
  }

  /** An idle client gets a frame; a new page needs a client that will report it. */
  lemma ServedGains(st: Store<Bytes>, table: Table, cs: seq<Client>, i: nat, c: Client, st2: Store<Bytes>,
                    table2: Table)
    requires Served(st, table, cs) && st.pins.Keys <= table.Keys && Stays(st.pins, table, table2)
    requires i < |cs| && cs[i].Idle? && !c.Idle? && (c.Writing? ==> |c.data| == PAGE_SIZE)
    requires st2.pins == Inc(st.pins, c.id) && INVALID_PAGE_ID !in st2.pages
    requires st2.unsaved <= st.unsaved + if c.Allocated? then {c.id} else {}
    requires c.id in table2 && table2[c.id] == c.frame
    ensures Served(st2, table2, cs[i := c])
  {
    HeldKept(st.pins, table, cs, i, c, st2.pins, table2);
    AttendedKept(st.unsaved, cs, i, c, st2.unsaved);
  }

  /** A holder lets go. */
  lemma ServedLoses(st: Store<Bytes>, table: Table, cs: seq<Client>, i: nat, dirty: bool, st2: Store<Bytes>,
                    table2: Table)
    requires Served(st, table, cs) && st.pins.Keys <= table.Keys && Stays(st.pins, table, table2)
    requires i < |cs| && !cs[i].Idle? && (dirty || cs[i].HasRead?)
    requires Unpins(st, cs[i].id, dirty, true, st2)
    ensures Served(st2, table2, cs[i := Idle])
  {
    HeldKept(st.pins, table, cs, i, Idle, st2.pins, table2);
    AttendedKept(st.unsaved, cs, i, Idle, st2.unsaved);
  }

  /** A holder copies the page out or in. */
  lemma ServedCopies(st: Store<Bytes>, table: Table, cs: seq<Client>, i: nat, c: Client, st2: Store<Bytes>)
    requires Served(st, table, cs) && st.pins.Keys <= table.Keys && i < |cs| && !cs[i].Idle? && cs[i].id in table
    requires (cs[i].Reading? && c.HasRead? && st2 == st) ||
             (cs[i].Writing? && c.Written? && st2 == st.(pages := st2.pages, unsaved := st.unsaved + {c.id}))
    requires c.id == cs[i].id && c.frame == cs[i].frame && INVALID_PAGE_ID !in st2.pages
    ensures Served(st2, table, cs[i := c])
  {
    HeldKept(st.pins, table, cs, i, c, st2.pins, table);
    AttendedKept(st.unsaved, cs, i, c, st2.unsaved);
  }

  /** Pool calls that no client's state depends on. */
  lemma ServedStays(st: Store<Bytes>, table: Table, cs: seq<Client>, st2: Store<Bytes>, table2: Table)
    requires Served(st, table, cs) && st.pins.Keys <= table.Keys && Stays(st.pins, table, table2)
    requires st2.pins == st.pins && st2.unsaved == st.unsaved && st2.pages.Keys <= st.pages.Keys
    ensures Served(st2, table2, cs)
  {
    forall j | 0 <= j < |cs| && !cs[j].Idle?
      ensures cs[j].id in table2 && table2[cs[j].id] == cs[j].frame
    {
      HolderPins(st.pins, table, cs, j);
    }
  }

  // ---- every step keeps the invariant ----

  lemma BeginKeepsInv(s: System, i: nat, e: Event, t: System)
    requires Inv(s) && i < |s.clients| && Opens(e) && Step(s, i, e, t)
    ensures Inv(t)
  {
    var ok :| Fetches(Seen(s), e.id, ok, Seen(t)) && (ok ==> e.id in t.pool.table)
      && t.clients == if ok then s.clients[i := Holding(e, t.pool.table[e.id])] else s.clients;
    if ok {
      ServedGains(Seen(s), s.pool.table, s.clients, i, t.clients[i], Seen(t), t.pool.table);
    } else {
      ServedStays(Seen(s), s.pool.table, s.clients, Seen(t), t.pool.table);
    }
  }

  lemma AllocateKeepsInv(s: System, i: nat, t: System)
    requires Inv(s) && i < |s.clients| && Step(s, i, StartAllocate, t)
    ensures Inv(t)
  {
    var ok, id :| Creates(Seen(s), Zeros(PAGE_SIZE), ok, id, Seen(t)) && (ok ==> id in t.pool.table)
      && t.clients == if ok then s.clients[i := Allocated(id, t.pool.table[id])] else s.clients;
    if ok {
      ServedGains(Seen(s), s.pool.table, s.clients, i, t.clients[i], Seen(t), t.pool.table);
    } else {
      ServedStays(Seen(s), s.pool.table, s.clients, Seen(t), t.pool.table);
    }
  }

  lemma EndKeepsInv(s: System, i: nat, dirty: bool, t: System)
    requires Inv(s) && i < |s.clients| && !s.clients[i].Idle? && s.pool.Mapped() && t.pool.Mapped()
    requires Ends(s, i, dirty, t) && (dirty || s.clients[i].HasRead?)
    ensures Inv(t)
  {
    ServedLoses(Seen(s), s.pool.table, s.clients, i, dirty, Seen(t), t.pool.table);
  }

  /** Copying a page in, as the other clients see it. */
  lemma CopyInSeen(s: System, i: nat, t: System)
    requires Inv(s) && i < |s.clients| && Step(s, i, CopyIn, t)
    ensures t.pool.Ok(t.disk, -1) && s.clients[i].id in Seen(s).pins && s.clients[i].id in Seen(s).pages
    ensures var c, st := s.clients[i], Seen(s);
      Seen(t) == st.(pages := st.pages[c.id := c.data], unsaved := st.unsaved + {c.id})
  {
    var c := s.clients[i];
    HolderPins(Seen(s).pins, s.pool.table, s.clients, i);
    WriteStep(s.pool, s.disk, c.id, s.pool.frames[c.frame].(data := c.data), c.data);
  }

  lemma CopyKeepsInv(s: System, i: nat, e: Event, t: System)
    requires Inv(s) && i < |s.clients| && (e.CopyOut? || e.CopyIn?) && Step(s, i, e, t)
    ensures Inv(t)
  {
    if e.CopyIn? {
      CopyInSeen(s, i, t);
    }
    ServedCopies(Seen(s), s.pool.table, s.clients, i, t.clients[i], Seen(t));
  }

  /** Whatever a client does next, and whichever client it is, the invariant survives. */
  lemma StepKeepsInv(s: System, i: nat, e: Event, t: System)
    requires Inv(s) && i < |s.clients| && Step(s, i, e, t)
    ensures Inv(t) && |t.clients| == |s.clients|
  {
    match e
    case StartRead(_) => BeginKeepsInv(s, i, e, t);
    case StartWrite(_, _) => BeginKeepsInv(s, i, e, t);
    case CopyOut => CopyKeepsInv(s, i, e, t);
    case CopyIn => CopyKeepsInv(s, i, e, t);
    case EndRead => EndKeepsInv(s, i, false, t);
    case EndWrite => EndKeepsInv(s, i, true, t);
    case EndAllocate => EndKeepsInv(s, i, true, t);
    case StartAllocate => AllocateKeepsInv(s, i, t);
    case Deallocate(_) => ServedStays(Seen(s), s.pool.table, s.clients, Seen(t), t.pool.table);
    case Background => ServedStays(Seen(s), s.pool.table, s.clients, Seen(t), t.pool.table);
  }

  // ---- the results of pool calls, as steps ----

  lemma FetchedIsStep(s: System, i: nat, e: Event, ok: bool, t: System)
    requires Inv(s) && i < |s.clients| && s.clients[i].Idle? && Opens(e) && e.id in Seen(s).pages
    requires e.StartWrite? ==> |e.data| == PAGE_SIZE
    requires PoolMoves(s, t) && Fetches(Seen(s), e.id, ok, Seen(t)) && (ok ==> e.id in t.pool.table)
    requires t.clients == if ok then s.clients[i := Holding(e, t.pool.table[e.id])] else s.clients
    ensures Step(s, i, e, t) && Inv(t)
  {
    assert Begins(s, i, e, t);
    BeginKeepsInv(s, i, e, t);
  }

  lemma CreatedIsStep(s: System, i: nat, ok: bool, id: PageId, t: System)
    requires Inv(s) && i < |s.clients| && s.clients[i].Idle?
    requires PoolMoves(s, t) && Creates(Seen(s), Zeros(PAGE_SIZE), ok, id, Seen(t)) && (ok ==> id in t.pool.table)
    requires t.clients == if ok then s.clients[i := Allocated(id, t.pool.table[id])] else s.clients
    ensures Step(s, i, StartAllocate, t) && Inv(t)
  {
    assert Allocates(s, i, t);
    AllocateKeepsInv(s, i, t);
  }

  lemma ReleasedIsStep(s: System, i: nat, e: Event, ok: bool, t: System)
    requires Inv(s) && i < |s.clients| && Releases(e, s.clients[i])
    requires PoolMoves(s, t) && Unpins(Seen(s), s.clients[i].id, !e.EndRead?, ok, Seen(t))
    requires t.clients == s.clients[i := Idle]
    ensures Step(s, i, e, t) && Inv(t)
  {
    HolderPins(Seen(s).pins, s.pool.table, s.clients, i);
    assert Ends(s, i, !e.EndRead?, t);
    EndKeepsInv(s, i, !e.EndRead?, t);
  }

  /** The request of a client that is done with its page. */
  predicate Releases(e: Event, c: Client) {
    (e.EndRead? && c.HasRead?) || (e.EndWrite? && c.Written?) || (e.EndAllocate? && c.Allocated?)
  }

  lemma DeletedIsStep(s: System, i: nat, id: PageId, ok: bool, t: System)
    requires Inv(s) && i < |s.clients| && s.clients[i].Idle? && id in Seen(s).pages
    requires PoolMoves(s, t) && Deletes(Seen(s), id, ok, Seen(t)) && t.clients == s.clients
    ensures Step(s, i, Deallocate(id), t) && Inv(t) && (ok <==> Holders(s.clients, id) == 0)
  {
    StepKeepsInv(s, i, Deallocate(id), t);
    assert PinCount(Seen(s).pins, id) == Holders(s.clients, id);
  }

  // ---- whole runs ----

  datatype Turn = Turn(client: nat, event: Event)

  ghost predicate Takes(s: System, turn: Turn, t: System) {
    turn.client < |s.clients| && Step(s, turn.client, turn.event, t)
  }

  /** Any interleaving of the clients' steps, from a pool nobody uses. */
  ghost predicate Run(states: seq<System>, turns: seq<Turn>) {
    Linked(states, turns, Takes) && Init(states[0])
  }

  /** What a reader of page `id` should find after a turn, if it should have found `before` until then. */
  function AfterTurn(id: PageId, s: System, turn: Turn, t: System, before: Bytes): Bytes {
    if turn.event.CopyIn? && turn.client < |s.clients| && s.clients[turn.client].Writing?
        && s.clients[turn.client].id == id then
      s.clients[turn.client].data
    else if id !in s.disk && id in t.disk then Zeros(PAGE_SIZE)
    else before
  }

  ghost function Reader(id: PageId): (System, Turn, System, Bytes) -> Bytes {
    (s, turn, t, before) => AfterTurn(id, s, turn, t, before)
  }

  /** The bytes most recently copied into page `id` in the first `k` turns, or zeros if it was allocated after that. */
  ghost function LastCopied(states: seq<System>, turns: seq<Turn>, k: nat, id: PageId): Bytes
    requires |states| == |turns| + 1 && k < |states|
  {
    Observed(states, turns, k, AtFirst(states[0], id), Reader(id))
  }

  ghost function AtFirst(s: System, id: PageId): Bytes {
    if s.pool.Mapped() && id in Seen(s).pages then Seen(s).pages[id] else Zeros(PAGE_SIZE)
  }

  /** The invariant, and page `id`, if it is live, has the contents it should have. */
  ghost predicate Delivers(id: PageId, s: System, expected: Bytes) {
    Inv(s) && (id in Seen(s).pages ==> Seen(s).pages[id] == expected)
  }

  /** What a step by client `c` may do to the contents of the pages. */
  ghost predicate Changes(pages: map<PageId, Bytes>, c: Client, e: Event, pages2: map<PageId, Bytes>) {
    match e
    case CopyIn => c.Writing? && c.id in pages && pages2 == pages[c.id := c.data]
    case StartAllocate => pages2 == pages || exists id: PageId | id !in pages :: pages2 == pages[id := Zeros(PAGE_SIZE)]
    case Deallocate(id) => pages2 == pages || pages2 == pages - {id}
    case _ => pages2 == pages
  }

  lemma StepChanges(s: System, i: nat, e: Event, t: System)
    requires Inv(s) && i < |s.clients| && Step(s, i, e, t)
    ensures Changes(Seen(s).pages, s.clients[i], e, Seen(t).pages)
  {
    if e.CopyIn? {
      CopyInSeen(s, i, t);
    }
  }

  lemma ChangedContents(pages: map<PageId, Bytes>, c: Client, e: Event, pages2: map<PageId, Bytes>, id: PageId)
    requires Changes(pages, c, e, pages2) && id in pages2
    ensures pages2[id] == if e.CopyIn?
        && c.id == id then c.data else if id !in pages then Zeros(PAGE_SIZE) else pages[id]
  {
  }

  lemma TurnDelivers(id: PageId, s: System, turn: Turn, t: System, before: Bytes)
    requires Delivers(id, s, before) && Takes(s, turn, t)
    ensures Delivers(id, t, AfterTurn(id, s, turn, t, before))
  {
    StepKeepsInv(s, turn.client, turn.event, t);
    if id in Seen(t).pages {
      StepChanges(s, turn.client, turn.event, t);
      ChangedContents(Seen(s).pages, s.clients[turn.client], turn.event, Seen(t).pages, id);
    }
  }

  /** Under every interleaving the invariant holds and the pages behave as plain memory. */
  lemma RunDelivers(states: seq<System>, turns: seq<Turn>, k: nat, id: PageId)
    requires Run(states, turns) && k < |states|
    ensures Delivers(id, states[k], LastCopied(states, turns, k, id))
  {
    InitInv(states[0]);
    var good := (s, v) => Delivers(id, s, v);
    forall s, turn, t, v | good(s, v) && Takes(s, turn, t)
      ensures good(t, Reader(id)(s, turn, t, v))
    {
      TurnDelivers(id, s, turn, t, v);
    }
    Always(states, turns, k, Takes, AtFirst(states[0], id), Reader(id), good);
  }

  /** In every reachable state, as many pins as holders; and a held page is live, where its holders were told. */
  lemma PinsAreHolders(states: seq<System>, turns: seq<Turn>, k: nat, id: PageId)
    requires Run(states, turns) && k < |states|
    ensures var s := states[k];
      && s.pool.Ok(s.disk, -1) && PinCount(Seen(s).pins, id) == Holders(s.clients, id)
      && forall i :: 0 <= i < |s.clients| && s.clients[i].Holds(id) ==>
           id in Seen(s).pages && id in s.pool.table && s.pool.table[id] == s.clients[i].frame
  {
    RunDelivers(states, turns, k, id);
  }

  /** Copying out, given what the page should contain. */
  lemma CopyOutDelivers(s: System, i: nat, t: System, expected: Bytes)
    requires i < |s.clients| && Takes(s, Turn(i, CopyOut), t) && Delivers(s.clients[i].id, s, expected)
    ensures |t.clients| == |s.clients| && t.clients[i].HasRead? && t.clients[i].id == s.clients[i].id
        && t.clients[i].data == expected
  {
    HolderPins(Seen(s).pins, s.pool.table, s.clients, i);
  }

  /** READ_PAGE delivers the latest WRITE_PAGE copied to that page since its allocation, or zeros. */
  lemma ReadReturnsLatestWrite(states: seq<System>, turns: seq<Turn>, k: nat, i: nat)
    requires Run(states, turns) && k < |turns| && turns[k] == Turn(i, CopyOut)
    ensures i < |states[k].clients| == |states[k + 1].clients|
    ensures var c, d := states[k].clients[i], states[k + 1].clients[i];
      c.Reading? && d.HasRead? && d.id == c.id && d.data == LastCopied(states, turns, k, c.id)
  {
    assert Takes(states[k], turns[k], states[k + 1]);
    var id := states[k].clients[i].id;
    RunDelivers(states, turns, k, id);
    CopyOutDelivers(states[k], i, states[k + 1], LastCopied(states, turns, k, id));
  }

  /** While a client holds a page, no other client's step evicts, deletes or rebinds its frame. */
  lemma HeldFrameStays(s: System, i: nat, e: Event, t: System, j: nat)
    requires Inv(s) && i < |s.clients| && Step(s, i, e, t)
    requires j < |s.clients| && j != i && !s.clients[j].Idle?
    ensures j < |t.clients| && t.clients[j] == s.clients[j]
    ensures var c := s.clients[j];
      c.id in t.pool.table && t.pool.table[c.id] == c.frame && t.pool.Mapped() && c.id in Seen(t).pages
  {
    StepKeepsInv(s, i, e, t);
  }

  /** DEALLOCATE_PAGE removes exactly the pages nobody holds. */
  lemma DeallocateWhenFree(s: System, i: nat, id: PageId, t: System)
    requires Inv(s) && i < |s.clients| && Step(s, i, Deallocate(id), t)
    ensures Seen(t).pages == if Holders(s.clients, id) == 0 then Seen(s).pages - {id} else Seen(s).pages
  {
    assert PinCount(Seen(s).pins, id) == Holders(s.clients, id);
  }

  /** The caller of UnpinPage meets its precondition: a page with unreported changes has a second holder. */
  lemma ReleaseAllowed(st: Store<Bytes>, table: Table, cs: seq<Client>, i: nat, e: Event)
    requires Served(st, table, cs) && i < |cs| && Releases(e, cs[i])
    ensures !e.EndRead? || cs[i].id !in st.unsaved || PinCount(st.pins, cs[i].id) > 1
  {
    var id := cs[i].id;
    if id in st.unsaved {
      var j :| 0 <= j < |cs| && Changer(cs[j], id);
      HoldersAtLeast(cs, i, j, id);
    }
  }

  // ---- enough frames ----

  function Busy(cs: seq<Client>): nat {
    if cs == [] then 0 else Busy(cs[..|cs| - 1]) + if cs[|cs| - 1].Idle? then 0 else 1
  }

  /** At most as many pages are held as clients are busy. */
  lemma {:induction false} HeldPagesAreFew(cs: seq<Client>, ids: set<PageId>)
    requires forall id :: id in ids ==> Holders(cs, id) > 0
    ensures |ids| <= Busy(cs)
  {
    if cs != [] {
      var c, rest := cs[|cs| - 1], cs[..|cs| - 1];
      if c.Idle? {
        HeldPagesAreFew(rest, ids);
      } else {
        HeldPagesAreFew(rest, ids - {c.id});
        assert |ids| <= |ids - {c.id}| + 1 by {
          if c.id in ids {
            assert ids == (ids - {c.id}) + {c.id};
          } else {
            assert ids == ids - {c.id};
          }
        }
      }
    }
  }

  lemma {:induction false} SomebodyIdle(cs: seq<Client>, i: nat)
    requires i < |cs| && cs[i].Idle?
    ensures Busy(cs) < |cs|
  {
    if i < |cs| - 1 {
      SomebodyIdle(cs[..|cs| - 1], i);
    } else {
      BusyAtMost(cs[..|cs| - 1]);
    }
  }

  lemma {:induction false} BusyAtMost(cs: seq<Client>)
    ensures Busy(cs) <= |cs|
  {
    if cs != [] {
      BusyAtMost(cs[..|cs| - 1]);
    }
  }

  /** With a frame for every client, no request on a live page fails for want of a frame. */
  lemma EnoughFrames(s: System, i: nat, e: Event, t: System)
    requires Inv(s) && i < |s.clients| && Step(s, i, e, t) && |s.clients| <= |s.pool.frames|
    requires Opens(e) || e.StartAllocate?
    ensures |t.clients| == |s.clients| && !t.clients[i].Idle?
  {
    var pins := Seen(s).pins;
    forall id | id in pins.Keys
      ensures Holders(s.clients, id) > 0
    {
      assert PinCount(pins, id) == Holders(s.clients, id);
    }
    HeldPagesAreFew(s.clients, pins.Keys);
    SomebodyIdle(s.clients, i);
    assert |pins| == |pins.Keys|;
  }

  /** The handlers over the real pool; each method is one atomic section of HandleClient. */
  class StorageService {
    const pool: BufferPoolManager
    var clients: seq<Client>

    ghost function State(): System
      requires pool.Assembled()
      reads this, pool, pool.pages, pool.disk
    {
      System(pool.View(), pool.disk.OnDisk(), clients)
    }

    ghost predicate Valid()
      reads this, pool, pool.pages, pool.disk
    {
      pool.Valid() && Inv(State())
    }

    constructor (pool: BufferPoolManager, n: nat)
      requires pool.Valid() && pool.Pins() == map[]
      ensures Valid() && Init(State()) && this.pool == pool && |clients| == n
    {
      this.pool, clients := pool, seq(n, _ => Idle);
      new;
      InitInv(State());
    }

    method StartRead(i: nat, id: PageId)
      requires Valid() && i < |clients| && clients[i].Idle? && id in pool.disk.LivePages()
      modifies this, pool, pool.pages, pool.disk`file, pool.disk`writes
      ensures Valid() && Step(old(State()), i, Event.StartRead(id), State())
    {
      var ok := pool.FetchPage(id);
      if ok {
        clients := clients[i := Reading(id, pool.pageTable[id])];
      }
      FetchedIsStep(old(State()), i, Event.StartRead(id), ok, State());
    }

    method StartWrite(i: nat, id: PageId, data: Bytes)
      requires Valid() && i < |clients| && clients[i].Idle? && id in pool.disk.LivePages() && |data| == PAGE_SIZE
      modifies this, pool, pool.pages, pool.disk`file, pool.disk`writes
      ensures Valid() && Step(old(State()), i, Event.StartWrite(id, data), State())
    {
      var ok := pool.FetchPage(id);
      if ok {
        clients := clients[i := Writing(id, pool.pageTable[id], data)];
      }
      FetchedIsStep(old(State()), i, Event.StartWrite(id, data), ok, State());
    }

    method CopyOut(i: nat)
      requires Valid() && i < |clients| && clients[i].Reading?
      modifies this
      ensures Valid() && Step(old(State()), i, Event.CopyOut, State())
    {
      var c := clients[i];
      clients := clients[i := HasRead(c.id, c.frame, pool.pages[c.frame].data)];
      StepKeepsInv(old(State()), i, Event.CopyOut, State());
    }

    method CopyIn(i: nat)
      requires Valid() && i < |clients| && clients[i].Writing?
      modifies this, pool`unsaved, pool.pages
      ensures Valid() && Step(old(State()), i, Event.CopyIn, State())
    {
      var c := clients[i];
      HolderPins(Seen(State()).pins, pool.pageTable, clients, i);
      pool.WriteThroughPin(c.id, c.data);
      clients := clients[i := Written(c.id, c.frame)];
      StepKeepsInv(old(State()), i, Event.CopyIn, State());
    }

    /** The last step of READ_PAGE, WRITE_PAGE and ALLOCATE_PAGE. */
    method Finish(i: nat, e: Event)
      requires Valid() && i < |clients| && Releases(e, clients[i])
      modifies this, pool`replacer, pool`unsaved, pool.pages
      ensures Valid() && Step(old(State()), i, e, State())
    {
      hide Visible, Saved, PinsOf;
      ghost var s := State();
      ReleaseAllowed(pool.Seen(), pool.pageTable, clients, i, e);
      var released := pool.UnpinPage(clients[i].id, !e.EndRead?);
      clients := clients[i := Idle];
      ReleasedIsStep(s, i, e, released, State());
    }

    method StartAllocate(i: nat)
      requires Valid() && i < |clients| && clients[i].Idle?
      requires pool.disk.free == [] ==> pool.disk.numPages < INVALID_PAGE_ID
      modifies this, pool, pool.pages, pool.disk
      ensures Valid() && Step(old(State()), i, Event.StartAllocate, State())
    {
      var ok, id := pool.NewPage();
      if ok {
        clients := clients[i := Allocated(id, pool.pageTable[id])];
      }
      CreatedIsStep(old(State()), i, ok, id, State());
    }

    method Deallocate(i: nat, id: PageId) returns (ok: bool)
      requires Valid() && i < |clients| && clients[i].Idle? && id in pool.disk.LivePages()
      modifies this, pool, pool.pages, pool.disk
      ensures Valid() && Step(old(State()), i, Event.Deallocate(id), State())
      ensures ok <==> Holders(old(clients), id) == 0
    {
      ok := pool.DeletePage(id);
      DeletedIsStep(old(State()), i, id, ok, State());
    }

    /** What the pool does on its own account, here on behalf of client `i`. */
    method Flush(i: nat)
      requires Valid() && i < |clients|
      modifies pool.pages, pool.disk`file, pool.disk`writes
      ensures Valid() && Step(old(State()), i, Event.Background, State())
    {
      pool.FlushAllPages();
      StepKeepsInv(old(State()), i, Event.Background, State());
    }
  }
}

/** Replacement policies: which unpinned frame to evict (services/storage/src/replacer.cpp). */
module Replacers {

  type FrameId = nat

  // ---- the clock ----

  datatype Clock = Clock(flags: seq<bool>, inReplacer: seq<bool>, hand: nat) {

    predicate Valid() {
      |flags| == |inReplacer| && (hand < |flags| || |flags| == 0)
    }

    predicate Has(f: FrameId) {
      f < |inReplacer| && inReplacer[f]
    }
  }

  function NextHand(c: Clock): nat
    requires c.Valid() && |c.flags| > 0
  {
    (c.hand + 1) % |c.flags|
  }

  /** One turn of the loop: a victim is found, or a flag is cleared, or nothing is there; the hand moves on. */
  function Turn(c: Clock): (r: (Clock, bool))
    requires c.Valid() && |c.flags| > 0
    ensures r.0.Valid() && |r.0.flags| == |c.flags|
  {
    if c.inReplacer[c.hand] && !c.flags[c.hand] then
      (Clock(c.flags, c.inReplacer[c.hand := false], NextHand(c)), true)
    else if c.inReplacer[c.hand] then
      (Clock(c.flags[c.hand := false], c.inReplacer, NextHand(c)), false)
    else
      (Clock(c.flags, c.inReplacer, NextHand(c)), false)
  }

  datatype Choice = None | Chosen(frame: FrameId)

  /** At most `turns` turns of the loop. */
  function Sweep(c: Clock, turns: nat): (r: (Clock, Choice))
    requires c.Valid() && |c.flags| > 0
    ensures r.0.Valid() && |r.0.flags| == |c.flags|
    decreases turns
  {
    if turns == 0 then (c, None)
    else if Turn(c).1 then (Turn(c).0, Chosen(c.hand))
    else Sweep(Turn(c).0, turns - 1)
  }

  /** How far the hand is from a frame, in circular order. */
  function Distance(c: Clock, f: FrameId): nat
    requires c.Valid() && f < |c.flags|
  {
    if f >= c.hand then f - c.hand else f + |c.flags| - c.hand
  }

  /** How many more turns a candidate can survive. */
  function Lifetime(c: Clock, f: FrameId): (t: nat)
    requires c.Valid() && f < |c.flags|
    ensures t < 2 * |c.flags|
  {
    Distance(c, f) + if c.flags[f] then |c.flags| else 0
  }

  lemma NextHandIs(c: Clock)
    requires c.Valid() && |c.flags| > 0
    ensures NextHand(c) == if c.hand + 1 == |c.flags| then 0 else c.hand + 1
  {
  }

  /** Every turn that does not evict `f` brings it one turn closer. */
  lemma TurnAges(c: Clock, f: FrameId)
    requires c.Valid() && c.Has(f)
    requires !(Turn(c).1 && c.hand == f)
    ensures Turn(c).0.Has(f) && Lifetime(Turn(c).0, f) == Lifetime(c, f) - 1
  {
    NextHandIs(c);
  }

  /** With a candidate `f`, the loop ends no later than the hand needs to evict `f`. */
  lemma {:induction false} SweepEnds(c: Clock, f: FrameId, turns: nat)
    requires c.Valid() && c.Has(f) && turns > Lifetime(c, f)
    ensures Sweep(c, turns).1.Chosen?
    ensures Sweep(c, turns) == Sweep(c, Lifetime(c, f) + 1)
    decreases turns
  {
    if !Turn(c).1 {
      TurnAges(c, f);
      SweepEnds(Turn(c).0, f, turns - 1);
    }
  }

  /** Candidate `v` comes first: among those with a clear flag if there are any, else among all. */
  ghost predicate ComesFirst(c: Clock, v: FrameId)
    requires c.Valid()
  {
    && c.Has(v)
    && if exists f: FrameId :: c.Has(f) && !c.flags[f] then
         !c.flags[v] && forall f: FrameId :: c.Has(f) && !c.flags[f] ==> Distance(c, v) <= Distance(c, f)
       else
         forall f: FrameId :: c.Has(f) ==> Distance(c, v) <= Distance(c, f)
  }

  /** Whoever comes first after an unsuccessful turn came first before it. */
  lemma TurnKeepsFirst(c: Clock, v: FrameId)
    requires c.Valid() && |c.flags| > 0 && !Turn(c).1 && ComesFirst(Turn(c).0, v)
    ensures ComesFirst(c, v)
  {
    var d := Turn(c).0;
    NextHandIs(c);
    assert forall f: FrameId :: d.Has(f) <==> c.Has(f);
    assert forall f: FrameId :: f < |c.flags| ==> d.flags[f] == (c.flags[f] && !(f == c.hand && c.Has(f)));
    if exists f: FrameId :: c.Has(f) && !c.flags[f] {
      var f: FrameId :| c.Has(f) && !c.flags[f];
      assert d.Has(f) && !d.flags[f] && f != c.hand;
      assert Distance(d, v) <= Distance(d, f);
    } else if c.Has(c.hand) {
      assert d.Has(c.hand) && !d.flags[c.hand];
      assert v == c.hand;
    }
  }

  /** The loop evicts the candidate that comes first, and no other candidate leaves. */
  lemma {:induction false} SweepPicksFirst(c: Clock, turns: nat)
    requires c.Valid() && |c.flags| > 0 && Sweep(c, turns).1.Chosen?
    ensures var (d, v) := Sweep(c, turns);
      && ComesFirst(c, v.frame)
      && d.inReplacer == c.inReplacer[v.frame := false]
    decreases turns
  {
    if !Turn(c).1 {
      SweepPicksFirst(Turn(c).0, turns - 1);
      TurnKeepsFirst(c, Sweep(c, turns).1.frame);
    }
  }

  /** Whether the hand passes `f` before it stops at `v`; with every flag set it goes all the way round first. */
  ghost predicate Passed(c: Clock, v: FrameId, f: FrameId)
    requires c.Valid() && v < |c.flags| && f < |c.flags|
  {
    (forall g: FrameId :: c.Has(g) ==> c.flags[g]) || Distance(c, f) < Distance(c, v)
  }

  /** The hand stops behind the victim, and just the candidates it passed have lost their flags. */
  lemma {:induction false} SweepLeaves(c: Clock, turns: nat)
    requires c.Valid() && |c.flags| > 0 && Sweep(c, turns).1.Chosen?
    ensures var (d, v) := Sweep(c, turns);
      && c.Has(v.frame) && d.hand == if v.frame + 1 == |c.flags| then 0 else v.frame + 1
    ensures var (d, v) := Sweep(c, turns);
      forall f: FrameId :: f < |c.flags| ==> d.flags[f] == (c.flags[f] && !(c.Has(f) && Passed(c, v.frame, f)))
    decreases turns
  {
    NextHandIs(c);
    SweepPicksFirst(c, turns);
    if !Turn(c).1 {
      SweepLeaves(Turn(c).0, turns - 1);
      SweepPicksFirst(Turn(c).0, turns - 1);
      TurnLeaves(c, Sweep(c, turns).1.frame, Sweep(c, turns).0);
    }
  }

  /** The same, one turn earlier. */
  lemma TurnLeaves(c: Clock, v: FrameId, d: Clock)
    requires c.Valid() && |c.flags| > 0 && !Turn(c).1 && d.Valid() && |d.flags| == |c.flags|
    requires var e := Turn(c).0;
      && ComesFirst(e, v)
      && forall f: FrameId :: f < |c.flags| ==> d.flags[f] == (e.flags[f] && !(e.Has(f) && Passed(e, v, f)))
    ensures forall f: FrameId :: f < |c.flags| ==> d.flags[f] == (c.flags[f] && !(c.Has(f) && Passed(c, v, f)))
  {
    var e := Turn(c).0;
    NextHandIs(c);
    assert forall f: FrameId :: e.Has(f) <==> c.Has(f);
    forall f: FrameId | f < |c.flags|
      ensures d.flags[f] == (c.flags[f] && !(c.Has(f) && Passed(c, v, f)))
    {
      if c.Has(c.hand) {
        assert e.Has(c.hand) && !e.flags[c.hand];
      }
    }
  }

  /** Candidates that are passed over age. */
  lemma {:induction false} SweepAges(c: Clock, f: FrameId, turns: nat)
    requires c.Valid() && c.Has(f) && Sweep(c, turns).1.Chosen? && Sweep(c, turns).1.frame != f
    ensures Sweep(c, turns).0.Has(f) && Lifetime(Sweep(c, turns).0, f) < Lifetime(c, f)
    decreases turns
  {
    TurnAges(c, f);
    if !Turn(c).1 {
      SweepAges(Turn(c).0, f, turns - 1);
    }
  }

  // ---- the operations ----

  predicate IsEmpty(c: Clock) {
    forall f :: 0 <= f < |c.inReplacer| ==> !c.inReplacer[f]
  }

  function ClockVictim(c: Clock): (r: (Clock, Choice))
    requires c.Valid()
    ensures r.0.Valid() && |r.0.flags| == |c.flags|
  {
    if IsEmpty(c) then (c, None) else Sweep(c, 2 * |c.flags|)
  }

  function ClockPin(c: Clock, f: FrameId): (r: Clock)
    requires c.Valid()
    ensures r.Valid() && |r.flags| == |c.flags|
  {
    if c.Has(f) then c.(inReplacer := c.inReplacer[f := false]) else c
  }

  function ClockUnpin(c: Clock, f: FrameId): (r: Clock)
    requires c.Valid()
    ensures r.Valid() && |r.flags| == |c.flags|
  {
    if f < |c.flags| && !c.inReplacer[f] then
      c.(inReplacer := c.inReplacer[f := true], flags := c.flags[f := true])
    else c
  }

  /** Victim succeeds exactly when there is a candidate, and removes the one that comes first. */
  lemma ClockVictimIs(c: Clock)
    requires c.Valid()
    ensures var (d, v) := ClockVictim(c);
      && (v.Chosen? <==> exists f: FrameId :: c.Has(f))
      && (if v.Chosen? then ComesFirst(c, v.frame) && d.inReplacer == c.inReplacer[v.frame := false] else d == c)
  {
    if !IsEmpty(c) {
      var f :| 0 <= f < |c.inReplacer| && c.inReplacer[f];
      assert c.Has(f);
      SweepEnds(c, f, 2 * |c.flags|);
      SweepPicksFirst(c, 2 * |c.flags|);
    }
  }

  /** What Victim leaves: the hand behind the victim, and no flag on the candidates it passed. */
  lemma ClockVictimLeaves(c: Clock)
    requires c.Valid() && ClockVictim(c).1.Chosen?
    ensures var (d, v) := ClockVictim(c);
      && c.Has(v.frame) && d.hand == (if v.frame + 1 == |c.flags| then 0 else v.frame + 1)
      && forall f: FrameId :: f < |c.flags| ==> d.flags[f] == (c.flags[f] && !(c.Has(f) && Passed(c, v.frame, f)))
  {
    SweepLeaves(c, 2 * |c.flags|);
  }

  /** A frame that has just become a candidate is not the next victim while another one has a clear flag. */
  lemma JustUnpinnedWaits(c: Clock, f: FrameId, g: FrameId)
    requires c.Valid() && f < |c.flags| && !c.Has(f) && c.Has(g) && !c.flags[g]
    ensures var v := ClockVictim(ClockUnpin(c, f)).1; v.Chosen? && v.frame != f
  {
    var d := ClockUnpin(c, f);
    assert d.Has(g) && !d.flags[g];
    ClockVictimIs(d);
  }

  // ---- no candidate waits for ever ----

  datatype Op = PinOp(f: FrameId) | UnpinOp(f: FrameId) | VictimOp

  /** The frames evicted by a run of operations. */
  function Victims(c: Clock, ops: seq<Op>): seq<FrameId>
    requires c.Valid()
    decreases |ops|
  {
    if ops == [] then []
    else match ops[0]
      case PinOp(f) => Victims(ClockPin(c, f), ops[1..])
      case UnpinOp(f) => Victims(ClockUnpin(c, f), ops[1..])
      case VictimOp =>
        var (d, v) := ClockVictim(c);
        (if v.Chosen? then [v.frame] else []) + Victims(d, ops[1..])
  }

  function CountVictimOps(ops: seq<Op>): nat {
    if ops == [] then 0 else (if ops[0].VictimOp? then 1 else 0) + CountVictimOps(ops[1..])
  }

  lemma {:induction false} EvictedInTime(c: Clock, f: FrameId, ops: seq<Op>)
    requires c.Valid() && c.Has(f) && PinOp(f) !in ops && CountVictimOps(ops) > Lifetime(c, f)
    ensures f in Victims(c, ops)
    decreases |ops|
  {
    var rest := ops[1..];
    assert PinOp(f) !in rest;
    match ops[0]
    case PinOp(g) => EvictedInTime(ClockPin(c, g), f, rest);
    case UnpinOp(g) => EvictedInTime(ClockUnpin(c, g), f, rest);
    case VictimOp =>
      var (d, v) := ClockVictim(c);
      assert !IsEmpty(c);
      ClockVictimIs(c);
      if v.frame != f {
        SweepAges(c, f, 2 * |c.flags|);
        EvictedInTime(d, f, rest);
      }
  }

  /** A candidate that nobody pins is evicted by the (2 * numFrames)-th call of Victim at the latest. */
  lemma NobodyWaitsForever(c: Clock, f: FrameId, ops: seq<Op>)
    requires c.Valid() && c.Has(f) && PinOp(f) !in ops && CountVictimOps(ops) >= 2 * |c.flags|
    ensures f in Victims(c, ops)
  {
    EvictedInTime(c, f, ops);
  }

  // ---- the clock replacer ----

  /** Number of candidates among the first `n` frames. */
  function Count(s: seq<bool>): nat {
    if s == [] then 0 else Count(s[..|s| - 1]) + if s[|s| - 1] then 1 else 0
  }

  lemma {:induction false} CountUpdate(s: seq<bool>, i: nat, b: bool)
    requires i < |s|
    ensures Count(s[i := b]) == Count(s) - (if s[i] then 1 else 0) + (if b then 1 else 0)
  {
    if i == |s| - 1 {
      assert s[i := b][..i] == s[..i];
    } else {
      assert s[i := b][..|s| - 1] == s[..|s| - 1][i := b];
      CountUpdate(s[..|s| - 1], i, b);
    }
  }

  lemma {:induction false} CountZero(s: seq<bool>)
    ensures Count(s) == 0 <==> forall i :: 0 <= i < |s| ==> !s[i]
  {
    if s != [] {
      CountZero(s[..|s| - 1]);
      assert forall i :: 0 <= i < |s| - 1 ==> s[..|s| - 1][i] == s[i];
    }
  }

  class ClockReplacer {
    const numFrames: nat
    const refFlags: array<bool>
    const inReplacer: array<bool>
    var clockHand: nat
    var size: nat

    ghost predicate Valid()
      reads this, inReplacer, refFlags
    {
      && refFlags.Length == inReplacer.Length == numFrames && refFlags != inReplacer
      && View().Valid() && size == Count(inReplacer[..])
    }

    ghost function View(): Clock
      reads this, inReplacer, refFlags
    {
      Clock(refFlags[..], inReplacer[..], clockHand)
    }

    constructor (numFrames: nat)
      ensures Valid() && this.numFrames == numFrames && IsEmpty(View()) && fresh(refFlags) && fresh(inReplacer)
      ensures clockHand == 0 && forall f: FrameId :: f < numFrames ==> !refFlags[f] && !inReplacer[f]
    {
      this.numFrames := numFrames;
      refFlags, inReplacer := new bool[numFrames](_ => false), new bool[numFrames](_ => false);
      clockHand, size := 0, 0;
      new;
      CountZero(inReplacer[..]);
    }

    /** Picks and removes a victim; the loop takes at most 2 * numFrames turns. */
    method Victim() returns (found: bool, frame: FrameId)
      requires Valid()
      modifies this, refFlags, inReplacer
      ensures Valid()
      ensures found == ClockVictim(old(View())).1.Chosen?
      ensures found ==> ClockVictim(old(View())) == (View(), Chosen(frame))
      ensures !found ==> View() == old(View())
      ensures ClockOf(old(View())).Victim() == (ClockOf(View()), if found then Chosen(frame) else None)
      ensures found <==> exists f: FrameId :: old(View()).Has(f)
      ensures found ==> ComesFirst(old(View()), frame) && inReplacer[..] == old(inReplacer[..])[frame := false]
      ensures found ==> clockHand == if frame + 1 == numFrames then 0 else frame + 1
      ensures found ==> var c := old(View());
        forall f: FrameId :: f < numFrames ==> refFlags[f] == (c.flags[f] && !(c.Has(f) && Passed(c, frame, f)))
    {
      ghost var before := View();
      found, frame := Sweeps();
      ClockVictimIs(before);
      if found {
        ClockVictimLeaves(before);
        assert forall f: FrameId :: f < numFrames ==> refFlags[f] == View().flags[f];
      }
    }

    method Sweeps() returns (found: bool, frame: FrameId)
      requires Valid()
      modifies this, refFlags, inReplacer
      ensures Valid()
      ensures found == ClockVictim(old(View())).1.Chosen?
      ensures found ==> ClockVictim(old(View())) == (View(), Chosen(frame))
      ensures !found ==> View() == old(View())
    {
      hide Count, Turn, Distance, Lifetime;
      CountZero(inReplacer[..]);
      if size == 0 {
        return false, 0;
      }
      ghost var c, turns := View(), 2 * numFrames;
      ghost var f :| 0 <= f < numFrames && c.inReplacer[f];
      ghost var result := Sweep(c, turns);
      SweepEnds(c, f, turns);
      while true
        invariant Valid() && c == View() && c.Has(f)
        invariant Lifetime(c, f) < turns && Sweep(c, turns) == result
        decreases turns
      {
        frame := clockHand;
        found := TakeTurn();
        if found {
          return;
        }
        TurnAges(c, f);
        c, turns := Turn(c).0, turns - 1;
      }
    }

    /** The body of the loop. */
    method TakeTurn() returns (found: bool)
      requires Valid() && numFrames > 0
      modifies this`clockHand, this`size, refFlags, inReplacer
      ensures Valid() && (View(), found) == Turn(old(View()))
      ensures size == old(size) - if found then 1 else 0
    {
      found := false;
      if inReplacer[clockHand] {
        if refFlags[clockHand] {
          refFlags[clockHand] := false;
        } else {
          CountUpdate(inReplacer[..], clockHand, false);
          inReplacer[clockHand] := false;
          size := size - 1;
          found := true;
        }
      }
      clockHand := (clockHand + 1) % numFrames;
    }

    method Pin(frame: FrameId)
      requires Valid()
      modifies this`size, inReplacer
      ensures Valid() && View() == ClockPin(old(View()), frame)
      ensures ClockOf(View()) == ClockOf(old(View())).Pin(frame)
      ensures clockHand == old(clockHand) && refFlags[..] == old(refFlags[..])
      ensures inReplacer[..] == if frame < numFrames then old(inReplacer[..])[frame := false] else old(inReplacer[..])
    {
      if frame >= numFrames {
        return;
      }
      if inReplacer[frame] {
        CountUpdate(inReplacer[..], frame, false);
        inReplacer[frame] := false;
        size := size - 1;
      }
    }

    method Unpin(frame: FrameId)
      requires Valid()
      modifies this`size, inReplacer, refFlags
      ensures Valid() && View() == ClockUnpin(old(View()), frame) && clockHand == old(clockHand)
      ensures ClockOf(View()) == ClockOf(old(View())).Unpin(frame)
      ensures frame < numFrames && !old(inReplacer[..])[frame] ==>
        inReplacer[..] == old(inReplacer[..])[frame := true] && refFlags[..] == old(refFlags[..])[frame := true]
      ensures frame >= numFrames || old(inReplacer[..])[frame] ==>
        inReplacer[..] == old(inReplacer[..]) && refFlags[..] == old(refFlags[..])
    {
      if frame >= numFrames {
        return;
      }
      if !inReplacer[frame] {
        CountUpdate(inReplacer[..], frame, true);
        inReplacer[frame], refFlags[frame] := true, true;
        size := size + 1;
      }
    }
  }

  // ---- least recently unpinned ----

  predicate Distinct(q: seq<FrameId>) {
    forall i, j :: 0 <= i < j < |q| ==> q[i] != q[j]
  }

  function Without(q: seq<FrameId>, f: FrameId): (r: seq<FrameId>)
    ensures forall g :: g in r <==> g in q && g != f
  {
    if q == [] then [] else (if q[0] == f then [] else [q[0]]) + Without(q[1..], f)
  }

  lemma {:induction false} WithoutDistinct(q: seq<FrameId>, f: FrameId)
    requires Distinct(q)
    ensures Distinct(Without(q, f))
  {
    if q != [] {
      WithoutDistinct(q[1..], f);
      assert q[0] !in q[1..];
    }
  }

  /** Taking out the only occurrence. */
  lemma {:induction false} WithoutAt(q: seq<FrameId>, i: nat)
    requires Distinct(q) && i < |q|
    ensures Without(q, q[i]) == q[..i] + q[i + 1..]
  {
    if i == 0 {
      WithoutAbsent(q[1..], q[0]);
    } else {
      WithoutAt(q[1..], i - 1);
      assert q[1..][..i - 1] == q[1..i] && q[..i] == [q[0]] + q[1..i];
    }
  }

  lemma {:induction false} WithoutAbsent(q: seq<FrameId>, f: FrameId)
    requires f !in q
    ensures Without(q, f) == q
  {
    if q != [] {
      WithoutAbsent(q[1..], f);
    }
  }

  // ---- what the buffer pool relies on ----

  /** The state of a replacer under either policy. */
  datatype Replacer = Lru(numFrames: nat, queue: seq<FrameId>) | ClockOf(clock: Clock) {

    predicate Valid() {
      if Lru? then Distinct(queue) && forall f :: f in queue ==> f < numFrames else clock.Valid()
    }

    function Frames(): nat {
      if Lru? then numFrames else |clock.flags|
    }

    function Candidates(): set<FrameId>
      requires Valid()
    {
      if Lru? then set f | f in queue
      else set f: FrameId | f < |clock.inReplacer| && clock.inReplacer[f]
    }

    function Victim(): (r: (Replacer, Choice))
      requires Valid()
      ensures r.0.Valid() && r.0.Frames() == Frames()
      ensures r.1.Chosen? <==> Candidates() != {}
      ensures r.1.Chosen? ==> r.1.frame in Candidates()
      ensures r.0.Candidates() == if r.1.Chosen? then Candidates() - {r.1.frame} else Candidates()
    {
      if Lru? then
        if queue == [] then (this, None)
        else
          assert queue[0] in Candidates() && forall f :: f in queue[1..] ==> f in queue;
          (Lru(numFrames, queue[1..]), Chosen(queue[0]))
      else
        ClockVictimIs(clock);
        var (c, v) := ClockVictim(clock);
        assert v.Chosen? ==> v.frame in Candidates();
        assert Candidates() != {} ==> exists f: FrameId :: clock.Has(f) by {
          if f :| f in Candidates() { assert clock.Has(f); }
        }
        (ClockOf(c), v)
    }

    function Pin(f: FrameId): (r: Replacer)
      requires Valid()
      ensures r.Valid() && r.Frames() == Frames() && r.Candidates() == Candidates() - {f}
    {
      if Lru? then
        WithoutDistinct(queue, f);
        Lru(numFrames, Without(queue, f))
      else ClockOf(ClockPin(clock, f))
    }

    function Unpin(f: FrameId): (r: Replacer)
      requires Valid()
      ensures r.Valid() && r.Frames() == Frames()
      ensures r.Candidates() == if f < Frames() then Candidates() + {f} else Candidates()
    {
      if Lru? then
        if f < numFrames && f !in queue then Lru(numFrames, queue + [f]) else this
      else ClockOf(ClockUnpin(clock, f))
    }
  }

  /** The queue of candidates; lruMap has the frames that are in it. */
  class LRUReplacer {
    const numFrames: nat
    var lruList: seq<FrameId>
    var lruMap: set<FrameId>

    ghost predicate Valid()
      reads this
    {
      View().Valid() && lruMap == (set f | f in lruList)
    }

    /** The queue as the pool sees it. */
    ghost function View(): Replacer
      reads this
    {
      Lru(numFrames, lruList)
    }

    constructor (numFrames: nat)
      ensures Valid() && lruList == [] && this.numFrames == numFrames
    {
      this.numFrames, lruList, lruMap := numFrames, [], {};
    }

    /** The frame that has been a candidate longest. */
    method Victim() returns (found: bool, frame: FrameId)
      requires Valid()
      modifies this
      ensures Valid() && (found <==> old(lruList) != [])
      ensures found ==> old(lruList) == [frame] + lruList
      ensures !found ==> lruList == old(lruList)
      ensures old(View()).Victim() == (View(), if found then Chosen(frame) else None)
    {
      if lruList == [] {
        return false, 0;
      }
      assert forall f :: f in lruList[1..] ==> f in lruList;
      found, frame := true, lruList[0];
      lruMap := lruMap - {frame};
      lruList := lruList[1..];
    }

    method Pin(frame: FrameId)
      requires Valid()
      modifies this
      ensures Valid() && lruList == Without(old(lruList), frame) && View() == old(View()).Pin(frame)
      ensures frame !in old(lruList) ==> lruList == old(lruList)
      ensures forall i :: 0 <= i < |old(lruList)| && old(lruList)[i] == frame ==>
        lruList == old(lruList)[..i] + old(lruList)[i + 1..]
    {
      forall i | 0 <= i < |lruList| && lruList[i] == frame
        ensures Without(lruList, frame) == lruList[..i] + lruList[i + 1..]
      {
        WithoutAt(lruList, i);
      }
      if frame !in lruMap {
        WithoutAbsent(lruList, frame);
      } else {
        WithoutDistinct(lruList, frame);
        lruList := Without(lruList, frame);
        lruMap := lruMap - {frame};
      }
    }

    /** A frame that is already a candidate keeps its place. */
    method Unpin(frame: FrameId)
      requires Valid()
      modifies this
      ensures Valid()
      ensures lruList == if frame < numFrames && frame !in old(lruList) then old(lruList) + [frame] else old(lruList)
      ensures View() == old(View()).Unpin(frame)
    {
      if frame >= numFrames || frame in lruMap {
        return;
      }
      lruList := lruList + [frame];
      lruMap := lruMap + {frame};
    }
  }
}

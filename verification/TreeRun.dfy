/** Whole runs of the index: any sequence of Insert, Delete and GetValue answers as a finite map does. */
module TreeRuns {
  import opened Types
  import opened Nodes
  import opened PageStores
  import opened TreeInvariant
  import opened TreeHeight
  import opened BPlusTrees

  datatype Op = Put(key: Key, value: RID) | Remove(key: Key) | Get(key: Key)

  datatype Reply = Done(ok: bool) | Found(value: RID) | Missing

  // ---- the finite map ----

  function Answer(m: map<Key, RID>, op: Op): Reply {
    match op
    case Put(k, _) => Done(k !in m)
    case Remove(k) => Done(k in m)
    case Get(k) => if k in m then Found(m[k]) else Missing
  }

  function After(m: map<Key, RID>, op: Op): map<Key, RID> {
    match op
    case Put(k, v) => if k in m then m else m[k := v]
    case Remove(k) => m - {k}
    case Get(_) => m
  }

  function Answers(m: map<Key, RID>, ops: seq<Op>): seq<Reply>
    decreases |ops|
  {
    if ops == [] then [] else [Answer(m, ops[0])] + Answers(After(m, ops[0]), ops[1..])
  }

  function AfterAll(m: map<Key, RID>, ops: seq<Op>): map<Key, RID>
    decreases |ops|
  {
    if ops == [] then m else AfterAll(After(m, ops[0]), ops[1..])
  }

  // ---- what a run needs ----

  function Puts(ops: seq<Op>): nat {
    if ops == [] then 0 else (if ops[0].Put? then 1 else 0) + Puts(ops[1..])
  }

  /** Each insertion may split a page of every level and add a root. */
  function NewPages(ops: seq<Op>, height: nat): nat {
    if ops == [] then 0 else (if ops[0].Put? then height + 1 else 0) + NewPages(ops[1..], height)
  }

  /** How often the map becomes empty; each time the old root keeps a pin. */
  function Emptied(m: map<Key, RID>, ops: seq<Op>): nat
    decreases |ops|
  {
    if ops == [] then 0 else Empties(m, ops[0]) + Emptied(After(m, ops[0]), ops[1..])
  }

  function Empties(m: map<Key, RID>, op: Op): nat {
    if m != map[] && After(m, op) == map[] then 1 else 0
  }

  /** Too few keys for a tree of more than `height` levels. */
  predicate FewKeys(c: Caps, height: nat, keys: nat)
    requires height >= 1
  {
    keys < 2 * Pow(c.internalMax / 2, height - 1) * (c.leafMax / 2)
  }

  /** With the page sizes of the engine, three levels do for seven million keys. */
  lemma ThreeLevels(keys: nat)
    ensures FewKeys(Caps(253, 338), 3, keys) <==> keys < 7_197_372
  {
    assert Pow(169, 2) == 169 * Pow(169, 1) && Pow(169, 1) == 169 * Pow(169, 0);
  }

  lemma {:induction false} PowGrows(b: nat, i: nat, j: nat)
    requires b >= 1 && i <= j
    ensures 1 <= Pow(b, i) <= Pow(b, j)
    decreases j
  {
    if i < j {
      PowGrows(b, i, j - 1);
      assert b * Pow(b, j - 1) >= Pow(b, j - 1);
    } else if i > 0 {
      PowGrows(b, i - 1, i - 1);
      assert b * Pow(b, i - 1) >= 1;
    }
  }

  lemma ProductGrows(a: nat, b: nat, k: nat)
    requires a <= b
    ensures 2 * a * k <= 2 * b * k
  {
  }

  lemma FewLevels(c: Caps, p: Pages, g: Infos, root: PageId, m: map<Key, RID>, height: nat)
    requires Inv(c, p, g, root, Exact) && Stores(p, g, m) && height >= 1 && FewKeys(c, height, |m|)
    ensures g[root].level < height
  {
    hide NodeOk;
    var level, b := g[root].level, c.internalMax / 2;
    if level >= height {
      HeightBound(c, p, g, root, m);
      PowGrows(b, height - 1, level - 1);
      ProductGrows(Pow(b, height - 1), Pow(b, level - 1), c.leafMax / 2);
    }
  }

  /** One operation adds at most one key. */
  lemma KeysAfter(m: map<Key, RID>, op: Op)
    ensures |After(m, op)| <= |m| + if op.Put? then 1 else 0
  {
    var m2 := After(m, op);
    assert m2.Keys <= m.Keys + if op.Put? then {op.key} else {};
    SubsetSize(m2.Keys, m.Keys + if op.Put? then {op.key} else {});
    assert |m2| == |m2.Keys| && |m| == |m.Keys|;
  }

  // ---- runs ----

  method Step(tree: BPlusTree, op: Op, ghost height: nat) returns (reply: Reply)
    requires tree.Valid() && height >= 1 && FewKeys(tree.caps, height, |tree.contents|)
    requires tree.Frames(2 * height + 1) && (op.Put? ==> tree.bpm.Room(height + 1))
    modifies tree, tree.bpm
    ensures tree.Valid() && reply == Answer(old(tree.contents), op)
    ensures tree.contents == After(old(tree.contents), op)
    ensures |tree.bpm.pins| <= |old(tree.bpm.pins)| + Empties(old(tree.contents), op)
    ensures tree.bpm.numPages <= old(tree.bpm.numPages) + if op.Put? then height + 1 else 0
  {
    if !tree.IsEmpty() {
      FewLevels(tree.caps, tree.bpm.pages, tree.info, tree.rootPageId, tree.contents, height);
    }
    match op
    case Put(key, value) =>
      var ok := tree.Insert(key, value);
      reply := Done(ok);
    case Remove(key) =>
      IncSize(tree.bpm.pins, tree.rootPageId);
      var ok := tree.Delete(key);
      reply := Done(ok);
    case Get(key) =>
      var ok, value := tree.GetValue(key);
      reply := if ok then Found(value) else Missing;
  }

  /**
   Any sequence of operations on any tree: every reply, and the map at the end, are those of a finite map. Enough
   frames are those of one operation at the greatest height that the number of keys allows, and one for each time
   the tree is emptied.
   */
  method Run(tree: BPlusTree, ops: seq<Op>, ghost height: nat) returns (replies: seq<Reply>)
    requires tree.Valid() && height >= 1 && FewKeys(tree.caps, height, |tree.contents| + Puts(ops))
    requires tree.Frames(Emptied(tree.contents, ops) + 2 * height + 1)
    requires tree.bpm.Room(NewPages(ops, height))
    modifies tree, tree.bpm
    ensures tree.Valid() && replies == Answers(old(tree.contents), ops)
    ensures tree.contents == AfterAll(old(tree.contents), ops)
    ensures |tree.bpm.pins| <= |old(tree.bpm.pins)| + Emptied(old(tree.contents), ops)
  {
    if ops == [] {
      return [];
    }
    KeysAfter(tree.contents, ops[0]);
    var first := Step(tree, ops[0], height);
    var rest := Run(tree, ops[1..], height);
    replies := [first] + rest;
  }
}

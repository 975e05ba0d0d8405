/** Records: values of several types written one after the other (the loops of class Tuple in tuple.hpp). */
module Records {
  import opened ByteCodes

  datatype Option<T> = None | Some(value: T)

  /** The encodings of the values, in order. */
  function Join<V>(vs: seq<V>, enc: V -> Bytes): Bytes {
    if vs == [] then [] else enc(vs[0]) + Join(vs[1..], enc)
  }

  /** Reading one value of each type; each value tells where the next one starts. */
  function Split<V, T>(b: Bytes, at: nat, types: seq<T>, dec: (Bytes, nat, T) -> Option<V>,
      enc: V -> Bytes): Option<seq<V>>
    decreases |types|
  {
    if types == [] then Some([]) else
      match dec(b, at, types[0])
      case None => None
      case Some(v) =>
        match Split(b, at + |enc(v)|, types[1..], dec, enc)
        case None => None
        case Some(rest) => Some([v] + rest)
  }

  /** The bytes `d` stand at `at`. */
  predicate Found(b: Bytes, at: nat, d: Bytes) {
    at + |d| <= |b| && b[at..at + |d|] == d
  }

  lemma FoundParts(b: Bytes, at: nat, d: Bytes, rest: Bytes)
    requires Found(b, at, d + rest)
    ensures Found(b, at, d) && Found(b, at + |d|, rest)
  {
    assert b[at..at + |d|] == b[at..at + |d + rest|][..|d|];
    assert b[at + |d|..at + |d| + |rest|] == b[at..at + |d + rest|][|d|..];
  }

  /** If every value is read back where its encoding stands, so is the record. */
  lemma {:induction false} JoinSplit<V(!new), T>(vs: seq<V>, types: seq<T>, b: Bytes, at: nat,
                                                 dec: (Bytes, nat, T) -> Option<V>, enc: V -> Bytes)
    requires |vs| == |types| && Found(b, at, Join(vs, enc))
    requires forall i, here :: 0 <= i < |vs| && Found(b, here, enc(vs[i])) ==> dec(b, here, types[i]) == Some(vs[i])
    ensures Split(b, at, types, dec, enc) == Some(vs)
    decreases |vs|
  {
    if vs != [] {
      FoundParts(b, at, enc(vs[0]), Join(vs[1..], enc));
      assert dec(b, at, types[0]) == Some(vs[0]);
      forall i, here | 0 <= i < |vs[1..]| && Found(b, here, enc(vs[1..][i]))
        ensures dec(b, here, types[1..][i]) == Some(vs[1..][i])
      {
        assert vs[1..][i] == vs[i + 1] && types[1..][i] == types[i + 1];
      }
      JoinSplit(vs[1..], types[1..], b, at + |enc(vs[0])|, dec, enc);
      assert vs == [vs[0]] + vs[1..];
    }
  }

  lemma {:induction false} JoinAppend<V>(vs: seq<V>, v: V, enc: V -> Bytes)
    ensures Join(vs + [v], enc) == Join(vs, enc) + enc(v)
  {
    if vs != [] {
      assert (vs + [v])[1..] == vs[1..] + [v];
      JoinAppend(vs[1..], v, enc);
    }
  }

  lemma {:induction false} JoinPrefix<V>(vs: seq<V>, ws: seq<V>, enc: V -> Bytes)
    ensures |Join(vs, enc)| <= |Join(vs + ws, enc)|
  {
    if vs == [] {
      assert vs + ws == ws;
    } else {
      assert (vs + ws)[1..] == vs[1..] + ws;
      JoinPrefix(vs[1..], ws, enc);
    }
  }

  /** The first `i + 1` values. */
  lemma JoinNext<V>(vs: seq<V>, i: nat, enc: V -> Bytes)
    requires i < |vs|
    ensures Join(vs[..i + 1], enc) == Join(vs[..i], enc) + enc(vs[i])
    ensures |Join(vs[..i + 1], enc)| <= |Join(vs, enc)|
  {
    assert vs[..i + 1] == vs[..i] + [vs[i]] && vs == vs[..i + 1] + vs[i + 1..];
    JoinAppend(vs[..i], vs[i], enc);
    JoinPrefix(vs[..i + 1], vs[i + 1..], enc);
  }

  lemma SpliceOn(b: Bytes, at: nat, d: Bytes, e: Bytes)
    requires at + |d| + |e| <= |b|
    ensures Splice(Splice(b, at, d), at + |d|, e) == Splice(b, at, d + e)
  {
  }

  /** memcpy. */
  method Copy(dest: array<Byte>, at: nat, d: Bytes)
    requires at + |d| <= dest.Length
    modifies dest
    ensures dest[..] == Splice(old(dest[..]), at, d)
  {
    forall k | 0 <= k < |d| {
      dest[at + k] := d[k];
    }
  }

  method Write<V>(vs: seq<V>, dest: array<Byte>, at: nat, enc: V -> Bytes)
    requires |Join(vs, enc)| <= 0xFFFF_FFFF && at + |Join(vs, enc)| <= dest.Length
    modifies dest
    ensures dest[..] == Splice(old(dest[..]), at, Join(vs, enc))
  {
    var offset: U32 := 0;
    for i := 0 to |vs|
      invariant offset == |Join(vs[..i], enc)| <= |Join(vs, enc)|
      invariant dest[..] == Splice(old(dest[..]), at, Join(vs[..i], enc))
    {
      JoinNext(vs, i, enc);
      SpliceOn(old(dest[..]), at, Join(vs[..i], enc), enc(vs[i]));
      Copy(dest, at + offset, enc(vs[i]));
      offset := offset + |enc(vs[i])|;
    }
    assert vs[..|vs|] == vs;
  }

  lemma WrapsOnce(a: nat, b: nat)
    ensures (a % 0x1_0000_0000 + b) % 0x1_0000_0000 == (a + b) % 0x1_0000_0000
  {
    var q := a / 0x1_0000_0000;
    assert a % 0x1_0000_0000 + b == (a + b) - q * 0x1_0000_0000;
  }

  /** Adding up in 32 bits, wrapping around. */
  method Length<V>(vs: seq<V>, enc: V -> Bytes) returns (length: U32)
    ensures length == |Join(vs, enc)| % 0x1_0000_0000
  {
    length := 0;
    for i := 0 to |vs|
      invariant length == |Join(vs[..i], enc)| % 0x1_0000_0000
    {
      JoinNext(vs, i, enc);
      WrapsOnce(|Join(vs[..i], enc)|, |enc(vs[i])|);
      length := (length + |enc(vs[i])|) % 0x1_0000_0000;
    }
    assert vs[..|vs|] == vs;
  }

  lemma SplitParts<V, T>(b: Bytes, at: nat, types: seq<T>, i: nat, dec: (Bytes, nat, T) -> Option<V>,
      enc: V -> Bytes, left: seq<V>)
    requires i < |types| && Split(b, at, types[i..], dec, enc) == Some(left)
    ensures left != [] && dec(b, at, types[i]) == Some(left[0])
    ensures Split(b, at + |enc(left[0])|, types[i + 1..], dec, enc) == Some(left[1..])
  {
    assert types[i..][0] == types[i] && types[i..][1..] == types[i + 1..];
  }

  /** Reading one more value. */
  lemma JoinOn<V>(vs: seq<V>, left: seq<V>, enc: V -> Bytes)
    requires left != []
    ensures vs + left == vs + [left[0]] + left[1..]
    ensures |Join(vs + [left[0]], enc)| == |Join(vs, enc)| + |enc(left[0])| <= |Join(vs + left, enc)|
  {
    assert vs + left == vs + [left[0]] + left[1..];
    JoinAppend(vs, left[0], enc);
    JoinPrefix(vs + [left[0]], left[1..], enc);
  }

  method Read<V, T>(b: Bytes, at: nat, types: seq<T>, dec: (Bytes, nat, T) -> Option<V>,
      enc: V -> Bytes) returns (vs: seq<V>)
    requires Split(b, at, types, dec, enc).Some? && |Join(Split(b, at, types, dec, enc).value, enc)| <= 0xFFFF_FFFF
    ensures Some(vs) == Split(b, at, types, dec, enc)
  {
    ghost var all := Split(b, at, types, dec, enc).value;
    ghost var left := all;
    vs := [];
    var offset: U32 := 0;
    for i := 0 to |types|
      invariant offset == |Join(vs, enc)| && all == vs + left
      invariant Split(b, at + offset, types[i..], dec, enc) == Some(left)
    {
      SplitParts(b, at + offset, types, i, dec, enc, left);
      JoinOn(vs, left, enc);
      var v := dec(b, at + offset, types[i]).value;
      offset := offset + |enc(v)|;
      vs, left := vs + [v], left[1..];
    }
    assert types[|types|..] == [] && vs + [] == vs;
  }
}

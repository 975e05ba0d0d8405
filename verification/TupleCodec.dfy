/** Values and tuples as bytes (tuple.hpp). */
module TupleCodec {
  import opened ByteCodes
  import opened Records

  datatype TypeId = INVALID | INT | VARCHAR | BOOLEAN

  /** A string whose encoding has a 32-bit length. */
  type Text = s: Bytes | |s| <= 0xFFFF_FFFB

  datatype Value = Invalid | Int(i: I64) | VarChar(s: Text) | Boolean(b: bool)

  type Tuple = seq<Value>

  /** The column types. */
  type Schema = seq<TypeId>

  function GetType(v: Value): TypeId {
    match v
    case Invalid => INVALID
    case Int(_) => INT
    case VarChar(_) => VARCHAR
    case Boolean(_) => BOOLEAN
  }

  /** The values have the types of the columns. */
  predicate Matches(t: Tuple, schema: Schema) {
    |t| == |schema| && forall i :: 0 <= i < |t| ==> GetType(t[i]) == schema[i]
  }

  // ---- one value ----

  /** What Value::Serialize writes. */
  function Encode(v: Value): Bytes {
    match v
    case Invalid => []
    case Int(i) => PutI64(i)
    case VarChar(s) => PutU32(|s|) + s
    case Boolean(b) => [if b then 1 else 0]
  }

  /** What Value::Deserialize reads at `at`, if the memory reaches that far. */
  function Decode(b: Bytes, at: nat, ty: TypeId): Option<Value> {
    match ty
    case INVALID => Some(Invalid)
    case INT => if at + 8 <= |b| then Some(Int(GetI64(b, at))) else None
    case VARCHAR =>
      if at + 4 <= |b| && at + 4 + GetU32(b, at) <= |b| && GetU32(b, at) <= 0xFFFF_FFFB then
        Some(VarChar(b[at + 4..at + 4 + GetU32(b, at)]))
      else None
    case BOOLEAN => if at < |b| then Some(Boolean(b[at] != 0)) else None
  }

  lemma FoundString(b: Bytes, at: nat, s: Text)
    requires Found(b, at, PutU32(|s|) + s)
    ensures GetU32(b, at) == |s| && b[at + 4..at + 4 + |s|] == s
  {
    FoundParts(b, at, PutU32(|s|), s);
    U32RoundTrip(|s|, b, at);
  }

  /** Wherever the encoding of a value stands, the value is read back. */
  lemma ValueRoundTrip(v: Value, b: Bytes, at: nat)
    requires Found(b, at, Encode(v))
    ensures Decode(b, at, GetType(v)) == Some(v)
  {
    match v
    case Invalid =>
    case Int(i) => I64RoundTrip(i, b, at);
    case VarChar(s) => FoundString(b, at, s);
    case Boolean(x) => assert b[at] == b[at..at + 1][0];
  }

  /** Value::GetSerializedLength. */
  function LengthOf(v: Value): nat {
    match v
    case Invalid => 0
    case Int(_) => 8
    case VarChar(s) => 4 + |s|
    case Boolean(_) => 1
  }

  /** The bytes of a value: 64 bits in two's complement, one byte for a truth value, a string behind its length. */
  lemma EncodeIs(v: Value)
    ensures |Encode(v)| == if v.Int? then 8 else if v.VarChar? then 4 + |v.s| else if v.Boolean? then 1 else 0
    ensures v.Boolean? ==> Encode(v)[0] == if v.b then 1 else 0
    ensures v.Int? ==> forall i :: 0 <= i < 8 ==>
      Encode(v)[i] == (if v.i >= 0 then v.i else v.i + 0x1_0000_0000_0000_0000) / Bound(i) % 256
    ensures v.VarChar? ==> var d, n := Encode(v), |v.s|;
      && d[0] == n % 256 && d[1] == n / 0x100 % 256 && d[2] == n / 0x1_0000 % 256 && d[3] == n / 0x100_0000 % 256
      && d[4..] == v.s
  {
    match v
    case Invalid =>
    case Int(i) => I64Bytes(i);
    case VarChar(s) => U32Bytes(|s|);
    case Boolean(_) =>
  }

  /** What is read, byte by byte. */
  lemma DecodeIs(b: Bytes, at: nat)
    ensures at < |b| ==> Decode(b, at, BOOLEAN) == Some(Boolean(b[at] != 0))
    ensures at + 4 <= |b| ==>
      var n := Word(b[at], b[at + 1], b[at + 2], b[at + 3]);
      at + 4 + n <= |b| && n <= 0xFFFF_FFFB ==> Decode(b, at, VARCHAR) == Some(VarChar(b[at + 4..at + 4 + n]))
    ensures at + 8 <= |b| ==>
      var low := Word(b[at], b[at + 1], b[at + 2], b[at + 3]);
      var high := Word(b[at + 4], b[at + 5], b[at + 6], b[at + 7]);
      var n := low + 0x1_0000_0000 * high;
      Decode(b, at, INT) == Some(Int(if n < 0x8000_0000_0000_0000 then n else n - 0x1_0000_0000_0000_0000))
  {
    hide GetU32, GetI64;
    if at + 4 <= |b| {
      U32Value(b, at);
    }
    if at + 8 <= |b| {
      U32Value(b, at + 4);
      I64Value(b, at);
    }
  }

  method SerializeValue(v: Value, dest: array<Byte>, at: nat)
    requires at + |Encode(v)| <= dest.Length
    modifies dest
    ensures dest[..] == Splice(old(dest[..]), at, Encode(v))
    ensures v.Invalid? ==> dest[..] == old(dest[..])
    ensures v.Boolean? ==> at < dest.Length && dest[..] == old(dest[..])[at := if v.b then 1 else 0]
    ensures v.Int? ==> at + 8 <= dest.Length && forall i :: 0 <= i < 8 ==>
      dest[at + i] == (if v.i >= 0 then v.i else v.i + 0x1_0000_0000_0000_0000) / Bound(i) % 256
    ensures v.VarChar? ==> at + 4 + |v.s| <= dest.Length && dest[at + 4..at + 4 + |v.s|] == v.s
    ensures v.VarChar? ==> var n := |v.s|;
      && dest[at] == n % 256 && dest[at + 1] == n / 0x100 % 256
      && dest[at + 2] == n / 0x1_0000 % 256 && dest[at + 3] == n / 0x100_0000 % 256
  {
    hide Bound, PutU32, PutI64;
    EncodeIs(v);
    match v
    case Invalid =>
    case Int(i) => Copy(dest, at, PutI64(i));
    case VarChar(s) =>
      Copy(dest, at, PutU32(|s|));
      Copy(dest, at + 4, s);
    case Boolean(b) => dest[at] := if b then 1 else 0;
  }

  // ---- tuples ----

  function EncodeTuple(t: Tuple): Bytes {
    Join(t, Encode)
  }

  function DecodeTuple(b: Bytes, at: nat, schema: Schema): Option<Tuple> {
    Split(b, at, schema, Decode, Encode)
  }

  /** The lengths of the values added up. */
  function TotalLength(t: Tuple): nat {
    if t == [] then 0 else TotalLength(t[..|t| - 1]) + LengthOf(t[|t| - 1])
  }

  /** The encodings of the values stand one behind the other, with nothing between them. */
  lemma {:induction false} EncodeTupleIs(t: Tuple)
    ensures |EncodeTuple(t)| == TotalLength(t)
    ensures forall i :: 0 <= i < |t| ==> Stands(EncodeTuple(t), TotalLength(t[..i]), t[i])
  {
    if t != [] {
      var init, last := t[..|t| - 1], t[|t| - 1];
      assert t == init + [last];
      JoinAppend(init, last, Encode);
      EncodeIs(last);
      EncodeTupleIs(init);
      forall i | 0 <= i < |t|
        ensures Stands(EncodeTuple(t), TotalLength(t[..i]), t[i])
      {
        StandsBefore(EncodeTuple(init), Encode(last), TotalLength(t[..i]), t[i], last);
        assert t[..i] == if i < |t| - 1 then init[..i] else init;
      }
    }
  }

  /** The encoding of `v` stands at `at`. */
  predicate Stands(d: Bytes, at: nat, v: Value) {
    at + LengthOf(v) <= |d| && d[at..at + LengthOf(v)] == Encode(v)
  }

  lemma StandsBefore(d: Bytes, e: Bytes, at: nat, v: Value, last: Value)
    requires e == Encode(last)
    ensures Stands(d, at, v) ==> Stands(d + e, at, v)
    ensures at == |d| && v == last ==> Stands(d + e, at, v)
  {
    EncodeIs(last);
    if Stands(d, at, v) {
      assert (d + e)[at..at + LengthOf(v)] == d[at..at + LengthOf(v)];
    }
  }

  lemma StandsIn(b: Bytes, at: nat, d: Bytes, from: nat, v: Value)
    requires Found(b, at, d) && Stands(d, from, v)
    ensures Stands(b, at + from, v)
  {
    Part(b, at, d, from, LengthOf(v));
  }

  lemma Part(b: Bytes, at: nat, d: Bytes, from: nat, n: nat)
    requires Found(b, at, d) && from + n <= |d|
    ensures b[at + from..at + from + n] == d[from..from + n]
  {
    var x, y, whole := b[at + from..at + from + n], d[from..from + n], b[at..at + |d|];
    forall k | 0 <= k < n
      ensures x[k] == y[k]
    {
      assert whole[from + k] == b[at + (from + k)];
    }
    assert x == y;
  }

  /** Wherever the encoding of a tuple stands, the tuple is read back. */
  lemma TupleRoundTrip(t: Tuple, schema: Schema, b: Bytes, at: nat)
    requires Matches(t, schema) && Found(b, at, EncodeTuple(t))
    ensures DecodeTuple(b, at, schema) == Some(t)
  {
    forall i, here | 0 <= i < |t| && Found(b, here, Encode(t[i]))
      ensures Decode(b, here, schema[i]) == Some(t[i])
    {
      ValueRoundTrip(t[i], b, here);
    }
    JoinSplit(t, schema, b, at, Decode, Encode);
  }

  /** Under one schema, no encoding begins with the encoding of another tuple. */
  lemma PrefixFree(t: Tuple, u: Tuple, schema: Schema)
    requires Matches(t, schema) && Matches(u, schema)
    ensures EncodeTuple(t) <= EncodeTuple(u) <==> t == u
  {
    if EncodeTuple(t) <= EncodeTuple(u) {
      TupleRoundTrip(t, schema, EncodeTuple(u), 0);
      TupleRoundTrip(u, schema, EncodeTuple(u), 0);
    }
  }

  lemma SerializedIs(t: Tuple, b: Bytes, at: nat)
    requires at + |EncodeTuple(t)| <= |b|
    ensures |EncodeTuple(t)| == TotalLength(t)
    ensures forall i :: 0 <= i < |t| ==> Stands(Splice(b, at, EncodeTuple(t)), at + TotalLength(t[..i]), t[i])
  {
    hide Encode, EncodeTuple, TotalLength, LengthOf, Stands;
    EncodeTupleIs(t);
    var c := Splice(b, at, EncodeTuple(t));
    assert Found(c, at, EncodeTuple(t));
    forall i | 0 <= i < |t|
      ensures Stands(c, at + TotalLength(t[..i]), t[i])
    {
      StandsIn(c, at, EncodeTuple(t), TotalLength(t[..i]), t[i]);
    }
  }

  method Serialize(t: Tuple, dest: array<Byte>, at: nat)
    requires |EncodeTuple(t)| <= 0xFFFF_FFFF && at + |EncodeTuple(t)| <= dest.Length
    modifies dest
    ensures dest[..] == Splice(old(dest[..]), at, EncodeTuple(t))
    ensures at + TotalLength(t) <= dest.Length
    ensures forall i :: 0 <= i < dest.Length && !(at <= i < at + TotalLength(t)) ==> dest[i] == old(dest[i])
    ensures forall i :: 0 <= i < |t| ==> Stands(dest[..], at + TotalLength(t[..i]), t[i])
  {
    hide Stands;
    SerializedIs(t, dest[..], at);
    Write(t, dest, at, Encode);
  }

  method GetSerializedLength(t: Tuple) returns (length: U32)
    ensures length == |EncodeTuple(t)| % 0x1_0000_0000 == TotalLength(t) % 0x1_0000_0000
  {
    EncodeTupleIs(t);
    length := Length(t, Encode);
  }

  /** Each value is decoded where the values before it end. */
  lemma {:induction false} DecodedAt(b: Bytes, at: nat, schema: Schema, t: Tuple, i: nat)
    requires DecodeTuple(b, at, schema) == Some(t) && i < |schema| == |t|
    ensures Decode(b, at + TotalLength(t[..i]), schema[i]) == Some(t[i])
    decreases i
  {
    hide Decode, Encode, LengthOf;
    DecodedFirst(b, at, schema, t);
    var v, rest := t[0], t[1..];
    if i > 0 {
      hide TotalLength;
      DecodedAt(b, at + |Encode(v)|, schema[1..], rest, i - 1);
      assert t[..i] == [v] + rest[..i - 1];
      FrontLength(v, rest[..i - 1]);
    }
  }

  lemma DecodedFirst(b: Bytes, at: nat, schema: Schema, t: Tuple)
    requires DecodeTuple(b, at, schema) == Some(t) && schema != []
    ensures t != [] && Decode(b, at, schema[0]) == Some(t[0])
    ensures DecodeTuple(b, at + |Encode(t[0])|, schema[1..]) == Some(t[1..])
    ensures |schema| == 1 ==> |t| == 1
  {
    hide Decode, Encode, LengthOf;
  }

  lemma {:induction false} DecodedLength(b: Bytes, at: nat, schema: Schema, t: Tuple)
    requires DecodeTuple(b, at, schema) == Some(t)
    ensures |t| == |schema|
    decreases |schema|
  {
    hide Decode, Encode;
    if schema != [] {
      DecodedFirst(b, at, schema, t);
      DecodedLength(b, at + |Encode(t[0])|, schema[1..], t[1..]);
    }
  }

  lemma FrontLength(v: Value, rest: Tuple)
    ensures TotalLength([v] + rest) == |Encode(v)| + TotalLength(rest)
  {
    EncodeTupleIs([v] + rest);
    EncodeTupleIs(rest);
    assert ([v] + rest)[1..] == rest;
  }

  method Deserialize(src: Bytes, at: nat, schema: Schema) returns (t: Tuple)
    requires DecodeTuple(src, at, schema).Some? && |EncodeTuple(DecodeTuple(src, at, schema).value)| <= 0xFFFF_FFFF
    ensures DecodeTuple(src, at, schema) == Some(t) && |t| == |schema|
    ensures forall i :: 0 <= i < |t| ==> Decode(src, at + TotalLength(t[..i]), schema[i]) == Some(t[i])
  {
    hide Decode, Encode, LengthOf, TotalLength;
    t := Read(src, at, schema, Decode, Encode);
    DecodedLength(src, at, schema, t);
    forall i | 0 <= i < |t|
      ensures Decode(src, at + TotalLength(t[..i]), schema[i]) == Some(t[i])
    {
      DecodedAt(src, at, schema, t, i);
    }
  }
}

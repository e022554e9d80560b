/**
 Values in the Thrift binary protocol (Apache Thrift binary protocol specification, sections "Struct",
 "List and Set" and "Map"): what the bytes of a value are, and how a reader takes a value off a byte string.
 */
module Wire {

  newtype Byte = b: int | 0 <= b < 256

  type Bytes = seq<Byte>

  newtype Int16 = n: int | -0x8000 <= n < 0x8000

  newtype Int32 = n: int | -0x8000_0000 <= n < 0x8000_0000

  const T_STOP: Byte := 0
  const T_BOOL: Byte := 2
  const T_BYTE: Byte := 3
  const T_DOUBLE: Byte := 4
  const T_I16: Byte := 6
  const T_I32: Byte := 8
  const T_I64: Byte := 10
  const T_STRING: Byte := 11
  const T_STRUCT: Byte := 12
  const T_MAP: Byte := 13
  const T_SET: Byte := 14
  const T_LIST: Byte := 15

  /** The exceptions of the protocol and the transport below it. */
  datatype Error = EndOfInput | NegativeSize | SizeLimit | InvalidData | BadVersion

  /** What reading from a byte string gives: a value and the bytes behind it, or an exception. */
  datatype Parse<+T> = Done(value: T, rest: Bytes) | Failed(error: Error) {
    predicate IsFailure() { Failed? }

    function PropagateFailure<U>(): Parse<U>
      requires Failed?
    {
      Failed(error)
    }

    function Extract(): (T, Bytes)
      requires Done?
    {
      (value, rest)
    }
  }

  // ---------------------------------------------------------------- primitives, big-endian

  function GetByte(s: Bytes): (r: Parse<Byte>)
    ensures r.Done? ==> |r.rest| == |s| - 1
  {
    if s == [] then Failed(EndOfInput) else Done(s[0], s[1..])
  }

  function PutI16(n: Int16): (s: Bytes)
    ensures |s| == 2
  {
    var u: nat := n as int % 0x1_0000;
    [(u / 0x100) as Byte, (u % 0x100) as Byte]
  }

  function GetI16(s: Bytes): (r: Parse<Int16>)
    ensures r.Done? ==> |r.rest| == |s| - 2
  {
    if |s| < 2 then Failed(EndOfInput)
    else
      var u := 0x100 * (s[0] as int) + s[1] as int;
      Done((if u < 0x8000 then u else u - 0x1_0000) as Int16, s[2..])
  }

  /** The bytes of an unsigned 32-bit number. */
  function PutU32(u: nat): (s: Bytes)
    requires u < 0x1_0000_0000
    ensures |s| == 4
  {
    var q1 := u / 0x100;
    var q2 := q1 / 0x100;
    [(q2 / 0x100) as Byte, (q2 % 0x100) as Byte, (q1 % 0x100) as Byte, (u % 0x100) as Byte]
  }

  function GetU32(a: Byte, b: Byte, c: Byte, d: Byte): (u: nat)
    ensures u < 0x1_0000_0000
  {
    0x100 * (0x100 * (0x100 * (a as int) + b as int) + c as int) + d as int
  }

  lemma U32RoundTrip(u: nat)
    requires u < 0x1_0000_0000
    ensures var s := PutU32(u); GetU32(s[0], s[1], s[2], s[3]) == u
  {
  }

  lemma U32Exact(a: Byte, b: Byte, c: Byte, d: Byte)
    ensures PutU32(GetU32(a, b, c, d)) == [a, b, c, d]
  {
    var u := GetU32(a, b, c, d);
    assert u / 0x100 == 0x100 * (0x100 * (a as int) + b as int) + c as int;
    assert u / 0x100 / 0x100 == 0x100 * (a as int) + b as int;
  }

  function PutI32(n: Int32): (s: Bytes)
    ensures |s| == 4
  {
    PutU32(if n < 0 then n as int + 0x1_0000_0000 else n as int)
  }

  function GetI32(s: Bytes): (r: Parse<Int32>)
    ensures r.Done? ==> |r.rest| == |s| - 4
  {
    if |s| < 4 then Failed(EndOfInput)
    else
      var u := GetU32(s[0], s[1], s[2], s[3]);
      Done((if u < 0x8000_0000 then u else u - 0x1_0000_0000) as Int32, s[4..])
  }

  lemma I16RoundTrip(n: Int16, tail: Bytes)
    ensures GetI16(PutI16(n) + tail) == Done(n, tail)
  {
    assert (PutI16(n) + tail)[2..] == tail;
  }

  lemma I16Exact(s: Bytes)
    requires GetI16(s).Done?
    ensures s == PutI16(GetI16(s).value) + GetI16(s).rest
  {
  }

  lemma I32RoundTrip(n: Int32, tail: Bytes)
    ensures GetI32(PutI32(n) + tail) == Done(n, tail)
  {
    U32RoundTrip(if n < 0 then n as int + 0x1_0000_0000 else n as int);
    assert (PutI32(n) + tail)[4..] == tail;
  }

  lemma I32Exact(s: Bytes)
    requires GetI32(s).Done?
    ensures s == PutI32(GetI32(s).value) + GetI32(s).rest
  {
    U32Exact(s[0], s[1], s[2], s[3]);
    assert PutI32(GetI32(s).value) == s[..4];
  }

  const SIZE_LIMIT: nat := 0x8000_0000

  function PutString(b: Bytes): (s: Bytes)
    requires |b| < SIZE_LIMIT
    ensures |s| == 4 + |b|
  {
    PutI32(|b| as Int32) + b
  }

  function Take(n: nat, s: Bytes): (r: Parse<Bytes>)
    ensures r.Done? ==> |r.rest| == |s| - n
  {
    if |s| < n then Failed(EndOfInput) else Done(s[..n], s[n..])
  }

  function GetString(s: Bytes): (r: Parse<Bytes>)
    ensures r.Done? ==> |r.rest| < |s|
  {
    var (n, r) :- GetI32(s);
    if n < 0 then Failed(NegativeSize) else Take(n as int, r)
  }

  lemma TakeRoundTrip(b: Bytes, tail: Bytes)
    ensures Take(|b|, b + tail) == Done(b, tail)
  {
  }

  lemma StringRoundTrip(b: Bytes, tail: Bytes)
    requires |b| < SIZE_LIMIT
    ensures GetString(PutString(b) + tail) == Done(b, tail)
  {
    assert PutString(b) + tail == PutI32(|b| as Int32) + (b + tail);
    I32RoundTrip(|b| as Int32, b + tail);
    TakeRoundTrip(b, tail);
  }

  lemma StringExact(s: Bytes)
    requires GetString(s).Done?
    ensures |GetString(s).value| < SIZE_LIMIT && s == PutString(GetString(s).value) + GetString(s).rest
  {
    I32Exact(s);
    var r := GetI32(s).rest;
    var n := GetI32(s).value as int;
    assert r == r[..n] + r[n..];
  }

  // ---------------------------------------------------------------- values

  /** The items of a map are its keys and values in turn, as they are on the wire. */
  datatype Value =
    | Fixed(ttype: Byte, payload: Bytes)  // bool, byte, double, i16, i64
    | I32(n: Int32)
    | Str(bytes: Bytes)
    | Struct(fields: seq<Field>)
    | Map(keyType: Byte, valueType: Byte, items: seq<Value>)
    | Sequence(kind: Byte, elemType: Byte, items: seq<Value>)  // set or list

  datatype Field = Field(id: Int16, value: Value)

  /** The payload size of the types whose values no reader here looks into; 0 for all other type bytes. */
  function FixedSize(t: Byte): nat {
    if t == T_BOOL || t == T_BYTE then 1
    else if t == T_I16 then 2
    else if t == T_I64 || t == T_DOUBLE then 8
    else 0
  }

  function TypeOf(v: Value): Byte {
    match v
    case Fixed(t, _) => t
    case I32(_) => T_I32
    case Str(_) => T_STRING
    case Struct(_) => T_STRUCT
    case Map(_, _, _) => T_MAP
    case Sequence(kind, _, _) => kind
  }

  predicate WellFormed(v: Value)
    decreases v, 2
  {
    match v
    case Fixed(t, payload) => FixedSize(t) > 0 && |payload| == FixedSize(t)
    case I32(_) => true
    case Str(b) => |b| < SIZE_LIMIT
    case Struct(fields) => FieldsWellFormed(fields)
    case Map(k, t, items) => |items| % 2 == 0 && |items| / 2 < SIZE_LIMIT && ItemsWellFormed(k, t, items)
    case Sequence(kind, t, items) =>
      (kind == T_SET || kind == T_LIST) && |items| < SIZE_LIMIT && ItemsWellFormed(t, t, items)
  }

  predicate FieldsWellFormed(fs: seq<Field>)
    decreases fs, 1
  {
    fs == [] || (FieldWellFormed(fs[0]) && FieldsWellFormed(fs[1..]))
  }

  predicate FieldWellFormed(f: Field)
    decreases f, 3
  {
    WellFormed(f.value)
  }

  /** The items have the types t and u in turn. */
  predicate ItemsWellFormed(t: Byte, u: Byte, items: seq<Value>)
    decreases items, 1
  {
    items == [] || (WellFormed(items[0]) && TypeOf(items[0]) == t && ItemsWellFormed(u, t, items[1..]))
  }

  function Put(v: Value): Bytes
    requires WellFormed(v)
    decreases v, 2
  {
    match v
    case Fixed(_, payload) => payload
    case I32(n) => PutI32(n)
    case Str(b) => PutString(b)
    case Struct(fields) => PutFields(fields)
    case Map(k, t, items) => [k, t] + PutI32((|items| / 2) as Int32) + PutItems(k, t, items)
    case Sequence(_, t, items) => [t] + PutI32(|items| as Int32) + PutItems(t, t, items)
  }

  function PutField(f: Field): Bytes
    requires FieldWellFormed(f)
    decreases f, 3
  {
    [TypeOf(f.value)] + PutI16(f.id) + Put(f.value)
  }

  function PutFields(fs: seq<Field>): Bytes
    requires FieldsWellFormed(fs)
    decreases fs, 1
  {
    if fs == [] then [T_STOP] else PutField(fs[0]) + PutFields(fs[1..])
  }

  function PutItems(t: Byte, u: Byte, items: seq<Value>): Bytes
    requires ItemsWellFormed(t, u, items)
    decreases items, 1
  {
    if items == [] then [] else Put(items[0]) + PutItems(u, t, items[1..])
  }

  // ---------------------------------------------------------------- reading, and so skipping, any value

  /** The field header: type and id; a stop byte stands alone. */
  function GetFieldBegin(s: Bytes): (r: Parse<(Byte, Int16)>)
    ensures r.Done? ==> |r.rest| == |s| - (if r.value.0 == T_STOP then 1 else 3)
  {
    var (t, r) :- GetByte(s);
    if t == T_STOP then Done((T_STOP, 0), r)
    else
      var (id, q) :- GetI16(r);
      Done((t, id), q)
  }

  function GetValue(t: Byte, s: Bytes): (r: Parse<Value>)
    ensures r.Done? ==> |r.rest| < |s|
    decreases |s|, 1, 0
  {
    if FixedSize(t) > 0 then
      var (b, r) :- Take(FixedSize(t), s);
      Done(Fixed(t, b), r)
    else if t == T_I32 then
      var (n, r) :- GetI32(s);
      Done(I32(n), r)
    else if t == T_STRING then
      var (b, r) :- GetString(s);
      Done(Str(b), r)
    else if t == T_STRUCT then
      var (fs, r) :- GetFields(s);
      Done(Struct(fs), r)
    else if t == T_MAP then GetMapValue(s)
    else if t == T_SET || t == T_LIST then GetSequenceValue(t, s)
    else Failed(InvalidData)
  }

  function GetMapValue(s: Bytes): (r: Parse<Value>)
    ensures r.Done? ==> |r.rest| < |s|
    decreases |s|, 0, 0
  {
    var (k, r) :- GetByte(s);
    var (u, q) :- GetByte(r);
    var (n, p) :- GetI32(q);
    if n < 0 then Failed(NegativeSize)
    else
      var (items, o) :- GetItems(k, u, 2 * (n as int), p);
      Done(Map(k, u, items), o)
  }

  function GetSequenceValue(kind: Byte, s: Bytes): (r: Parse<Value>)
    ensures r.Done? ==> |r.rest| < |s|
    decreases |s|, 0, 0
  {
    var (u, q) :- GetByte(s);
    var (n, p) :- GetI32(q);
    if n < 0 then Failed(NegativeSize)
    else
      var (items, o) :- GetItems(u, u, n as int, p);
      Done(Sequence(kind, u, items), o)
  }

  function GetFields(s: Bytes): (r: Parse<seq<Field>>)
    ensures r.Done? ==> |r.rest| < |s|
    decreases |s|, 0, 0
  {
    var (h, q) :- GetFieldBegin(s);
    if h.0 == T_STOP then Done([], q)
    else
      var (v, p) :- GetValue(h.0, q);
      var (fs, o) :- GetFields(p);
      Done([Field(h.1, v)] + fs, o)
  }

  function GetItems(t: Byte, u: Byte, n: nat, s: Bytes): (r: Parse<seq<Value>>)
    ensures r.Done? ==> |r.rest| <= |s| && |r.value| == n
    decreases |s|, 2, n
  {
    if n == 0 then Done([], s)
    else
      var (v, q) :- GetValue(t, s);
      var (vs, o) :- GetItems(u, t, n - 1, q);
      Done([v] + vs, o)
  }

  // ---------------------------------------------------------------- reading inverts writing

  lemma FieldBeginRoundTrip(t: Byte, id: Int16, tail: Bytes)
    requires t != T_STOP
    ensures GetFieldBegin([t] + PutI16(id) + tail) == Done((t, id), tail)
  {
    var s := [t] + PutI16(id) + tail;
    assert s[1..] == PutI16(id) + tail;
    I16RoundTrip(id, tail);
  }

  lemma FixedRoundTrip(t: Byte, payload: Bytes, tail: Bytes)
    requires FixedSize(t) > 0 && |payload| == FixedSize(t)
    ensures GetValue(t, payload + tail) == Done(Fixed(t, payload), tail)
  {
    TakeRoundTrip(payload, tail);
  }

  lemma StructRoundTrip(fields: seq<Field>, s: Bytes, tail: Bytes)
    requires GetFields(s) == Done(fields, tail)
    ensures GetValue(T_STRUCT, s) == Done(Struct(fields), tail)
  {
  }

  lemma {:induction false} ValueRoundTrip(v: Value, tail: Bytes)
    requires WellFormed(v)
    ensures GetValue(TypeOf(v), Put(v) + tail) == Done(v, tail)
    decreases v, 2
  {
    match v
    case Fixed(t, payload) => FixedRoundTrip(t, payload, tail);
    case I32(n) => I32RoundTrip(n, tail);
    case Str(b) => StringRoundTrip(b, tail);
    case Struct(fields) =>
      FieldsRoundTrip(fields, tail);
      StructRoundTrip(fields, PutFields(fields) + tail, tail);
    case Map(k, t, items) =>
      ItemsRoundTrip(k, t, items, tail);
      MapHeader(k, t, items, tail);
    case Sequence(kind, t, items) =>
      ItemsRoundTrip(t, t, items, tail);
      SequenceHeader(kind, t, items, tail);
  }

  lemma Regroup(a: Bytes, b: Bytes, c: Bytes, d: Bytes)
    ensures ((a + b) + c) + d == a + (b + (c + d))
  {
  }

  lemma GetMap(k: Byte, t: Byte, n: Int32, p: Bytes, items: seq<Value>, rest: Bytes)
    requires n >= 0 && GetItems(k, t, 2 * (n as int), p) == Done(items, rest)
    ensures GetMapValue([k, t] + (PutI32(n) + p)) == Done(Map(k, t, items), rest)
  {
    var s := [k, t] + (PutI32(n) + p);
    assert s[1..] == [t] + (PutI32(n) + p);
    assert s[1..][1..] == PutI32(n) + p;
    I32RoundTrip(n, p);
  }

  lemma MapHeader(k: Byte, t: Byte, items: seq<Value>, tail: Bytes)
    requires WellFormed(Map(k, t, items))
    requires GetItems(k, t, |items|, PutItems(k, t, items) + tail) == Done(items, tail)
    ensures GetValue(T_MAP, Put(Map(k, t, items)) + tail) == Done(Map(k, t, items), tail)
  {
    GetMap(k, t, (|items| / 2) as Int32, PutItems(k, t, items) + tail, items, tail);
    Regroup([k, t], PutI32((|items| / 2) as Int32), PutItems(k, t, items), tail);
  }

  lemma GetSequence(kind: Byte, t: Byte, n: Int32, p: Bytes, items: seq<Value>, rest: Bytes)
    requires n >= 0 && GetItems(t, t, n as int, p) == Done(items, rest)
    ensures GetSequenceValue(kind, [t] + (PutI32(n) + p)) == Done(Sequence(kind, t, items), rest)
  {
    var s := [t] + (PutI32(n) + p);
    assert s[1..] == PutI32(n) + p;
    I32RoundTrip(n, p);
  }

  lemma SequenceHeader(kind: Byte, t: Byte, items: seq<Value>, tail: Bytes)
    requires WellFormed(Sequence(kind, t, items))
    requires GetItems(t, t, |items|, PutItems(t, t, items) + tail) == Done(items, tail)
    ensures GetValue(kind, Put(Sequence(kind, t, items)) + tail) == Done(Sequence(kind, t, items), tail)
  {
    GetSequence(kind, t, |items| as Int32, PutItems(t, t, items) + tail, items, tail);
    Regroup([t], PutI32(|items| as Int32), PutItems(t, t, items), tail);
  }

  lemma GetFieldsStep(s: Bytes, t: Byte, id: Int16, q: Bytes, v: Value, p: Bytes, fs: seq<Field>, rest: Bytes)
    requires GetFieldBegin(s) == Done((t, id), q) && t != T_STOP
    requires GetValue(t, q) == Done(v, p) && GetFields(p) == Done(fs, rest)
    ensures GetFields(s) == Done([Field(id, v)] + fs, rest)
  {
  }

  lemma {:induction false} FieldsRoundTrip(fs: seq<Field>, tail: Bytes)
    requires FieldsWellFormed(fs)
    ensures GetFields(PutFields(fs) + tail) == Done(fs, tail)
    decreases fs, 1
  {
    if fs == [] {
      NoFields(tail);
    } else {
      var f, rest := fs[0], fs[1..];
      var more := PutFields(rest) + tail;
      FieldRoundTrip(f, more);
      FieldsRoundTrip(rest, tail);
      GetFieldsStep(PutField(f) + more, TypeOf(f.value), f.id, Put(f.value) + more, f.value, more, rest, tail);
      PutFieldsCons(f, rest, tail);
      assert [f] + rest == fs;
    }
  }

  lemma PutFieldsCons(f: Field, rest: seq<Field>, tail: Bytes)
    requires FieldWellFormed(f) && FieldsWellFormed(rest)
    ensures FieldsWellFormed([f] + rest)
    ensures PutFields([f] + rest) + tail == PutField(f) + (PutFields(rest) + tail)
  {
    assert ([f] + rest)[1..] == rest;
  }

  lemma NoFields(tail: Bytes)
    ensures GetFields([T_STOP] + tail) == Done([], tail)
  {
    assert ([T_STOP] + tail)[1..] == tail;
  }

  lemma {:induction false} FieldRoundTrip(f: Field, more: Bytes)
    requires FieldWellFormed(f)
    ensures TypeOf(f.value) != T_STOP
    ensures GetFieldBegin(PutField(f) + more) == Done((TypeOf(f.value), f.id), Put(f.value) + more)
    ensures GetValue(TypeOf(f.value), Put(f.value) + more) == Done(f.value, more)
    decreases f, 3
  {
    assert PutField(f) + more == [TypeOf(f.value)] + PutI16(f.id) + (Put(f.value) + more);
    FieldBeginRoundTrip(TypeOf(f.value), f.id, Put(f.value) + more);
    ValueRoundTrip(f.value, more);
  }

  lemma {:induction false} ItemsRoundTrip(t: Byte, u: Byte, items: seq<Value>, tail: Bytes)
    requires ItemsWellFormed(t, u, items)
    ensures GetItems(t, u, |items|, PutItems(t, u, items) + tail) == Done(items, tail)
    decreases items, 1
  {
    if items == [] {
      assert PutItems(t, u, items) + tail == tail;
    } else {
      var v, vs := items[0], items[1..];
      var more := PutItems(u, t, vs) + tail;
      assert PutItems(t, u, items) + tail == Put(v) + more;
      ValueRoundTrip(v, more);
      ItemsRoundTrip(u, t, vs, tail);
      GetItemsStep(t, u, |items|, Put(v) + more, v, more, vs, tail);
      assert [v] + vs == items;
    }
  }

  lemma GetItemsStep(t: Byte, u: Byte, n: nat, s: Bytes, v: Value, q: Bytes, vs: seq<Value>, rest: Bytes)
    requires n > 0 && GetValue(t, s) == Done(v, q) && GetItems(u, t, n - 1, q) == Done(vs, rest)
    ensures GetItems(t, u, n, s) == Done([v] + vs, rest)
  {
  }

  // ---------------------------------------------------------------- and nothing else can be read

  lemma FieldBeginExact(s: Bytes)
    requires GetFieldBegin(s).Done? && GetFieldBegin(s).value.0 != T_STOP
    ensures var r := GetFieldBegin(s); s == [r.value.0] + PutI16(r.value.1) + r.rest
  {
    I16Exact(s[1..]);
  }

  /** Whatever a reader accepts is the encoding of the well-formed value it returns, followed by what it left. */
  lemma {:induction false} ValueExact(t: Byte, s: Bytes)
    requires GetValue(t, s).Done?
    ensures var r := GetValue(t, s);
            WellFormed(r.value) && TypeOf(r.value) == t && s == Put(r.value) + r.rest
    decreases |s|, 1, 0
  {
    if FixedSize(t) > 0 {
    } else if t == T_I32 {
      I32Exact(s);
    } else if t == T_STRING {
      StringExact(s);
    } else if t == T_STRUCT {
      FieldsExact(s);
    } else if t == T_MAP {
      MapExact(s);
    } else {
      SequenceExact(t, s);
    }
  }

  lemma {:induction false} MapExact(s: Bytes)
    requires GetMapValue(s).Done?
    ensures var r := GetMapValue(s);
            WellFormed(r.value) && TypeOf(r.value) == T_MAP && s == Put(r.value) + r.rest
    decreases |s|, 0, 0
  {
    var k, u, q := s[0], s[1], s[1..][1..];
    assert s == [k, u] + q;
    I32Exact(q);
    var n, p := GetI32(q).value, GetI32(q).rest;
    var r := GetItems(k, u, 2 * (n as int), p);
    ItemsExact(k, u, 2 * (n as int), p);
    PutMap(k, u, n, r.value, s, q, p, r.rest);
  }

  lemma PutMap(k: Byte, u: Byte, n: Int32, items: seq<Value>, s: Bytes, q: Bytes, p: Bytes, rest: Bytes)
    requires |items| == 2 * (n as int) && ItemsWellFormed(k, u, items)
    requires s == [k, u] + q && q == PutI32(n) + p && p == PutItems(k, u, items) + rest
    ensures WellFormed(Map(k, u, items)) && s == Put(Map(k, u, items)) + rest
  {
    assert |items| / 2 == n as int;
    RegroupInto(s, [k, u], q, PutI32(n), p, PutItems(k, u, items), rest);
  }

  lemma RegroupInto(s: Bytes, a: Bytes, q: Bytes, b: Bytes, p: Bytes, c: Bytes, rest: Bytes)
    requires s == a + q && q == b + p && p == c + rest
    ensures s == ((a + b) + c) + rest
  {
    Regroup(a, b, c, rest);
  }

  lemma {:induction false} SequenceExact(t: Byte, s: Bytes)
    requires (t == T_SET || t == T_LIST) && GetSequenceValue(t, s).Done?
    ensures var r := GetSequenceValue(t, s);
            WellFormed(r.value) && TypeOf(r.value) == t && s == Put(r.value) + r.rest
    decreases |s|, 0, 0
  {
    var u, q := s[0], s[1..];
    I32Exact(q);
    var n, p := GetI32(q).value, GetI32(q).rest;
    var r := GetItems(u, u, n as int, p);
    ItemsExact(u, u, n as int, p);
    PutSequence(t, u, n, r.value, s, q, p, r.rest);
  }

  lemma PutSequence(t: Byte, u: Byte, n: Int32, items: seq<Value>, s: Bytes, q: Bytes, p: Bytes, rest: Bytes)
    requires (t == T_SET || t == T_LIST) && n as int == |items| && ItemsWellFormed(u, u, items)
    requires s == [u] + q && q == PutI32(n) + p && p == PutItems(u, u, items) + rest
    ensures WellFormed(Sequence(t, u, items)) && s == Put(Sequence(t, u, items)) + rest
  {
    RegroupInto(s, [u], q, PutI32(n), p, PutItems(u, u, items), rest);
  }

  lemma {:induction false} FieldsExact(s: Bytes)
    requires GetFields(s).Done?
    ensures var r := GetFields(s); FieldsWellFormed(r.value) && s == PutFields(r.value) + r.rest
    decreases |s|, 0, 0
  {
    var h := GetFieldBegin(s);
    if h.value.0 == T_STOP {
      assert s == [T_STOP] + s[1..];
    } else {
      FieldBeginExact(s);
      var v := GetValue(h.value.0, h.rest);
      ValueExact(h.value.0, h.rest);
      var fs := GetFields(v.rest);
      FieldsExact(v.rest);
      GetFieldsStep(s, h.value.0, h.value.1, h.rest, v.value, v.rest, fs.value, fs.rest);
      PutFieldsAgain(s, h.value.1, h.rest, v.value, v.rest, fs.value, fs.rest);
    }
  }

  lemma PutFieldsAgain(s: Bytes, id: Int16, q: Bytes, v: Value, p: Bytes, fs: seq<Field>, rest: Bytes)
    requires WellFormed(v) && FieldsWellFormed(fs)
    requires s == [TypeOf(v)] + PutI16(id) + q && q == Put(v) + p && p == PutFields(fs) + rest
    ensures FieldsWellFormed([Field(id, v)] + fs) && s == PutFields([Field(id, v)] + fs) + rest
  {
    PutFieldsCons(Field(id, v), fs, rest);
    assert PutField(Field(id, v)) + p == [TypeOf(v)] + PutI16(id) + (Put(v) + p);
  }

  lemma {:induction false} ItemsExact(t: Byte, u: Byte, n: nat, s: Bytes)
    requires GetItems(t, u, n, s).Done?
    ensures var r := GetItems(t, u, n, s); ItemsWellFormed(t, u, r.value) && s == PutItems(t, u, r.value) + r.rest
    decreases |s|, 2, n
  {
    if n == 0 {
      assert s == [] + s;
    } else {
      var v, q, vs, rest := GetItemsParts(t, u, n, s);
      ValueExact(t, s);
      ItemsExact(u, t, n - 1, q);
      PutItemsAgain(t, u, s, v, q, vs, rest);
    }
  }

  lemma GetItemsParts(t: Byte, u: Byte, n: nat, s: Bytes) returns (v: Value, q: Bytes, vs: seq<Value>, rest: Bytes)
    requires n > 0 && GetItems(t, u, n, s).Done?
    ensures GetValue(t, s) == Done(v, q) && GetItems(u, t, n - 1, q) == Done(vs, rest)
    ensures GetItems(t, u, n, s) == Done([v] + vs, rest)
  {
    v, q := GetValue(t, s).value, GetValue(t, s).rest;
    vs, rest := GetItems(u, t, n - 1, q).value, GetItems(u, t, n - 1, q).rest;
  }

  lemma PutItemsAgain(t: Byte, u: Byte, s: Bytes, v: Value, q: Bytes, vs: seq<Value>, rest: Bytes)
    requires WellFormed(v) && TypeOf(v) == t && ItemsWellFormed(u, t, vs)
    requires s == Put(v) + q && q == PutItems(u, t, vs) + rest
    ensures ItemsWellFormed(t, u, [v] + vs) && s == PutItems(t, u, [v] + vs) + rest
  {
    ItemExact(t, u, v, vs);
    JoinBytes(s, Put(v), q, PutItems(u, t, vs), rest);
  }

  lemma JoinBytes(s: Bytes, a: Bytes, q: Bytes, b: Bytes, rest: Bytes)
    requires s == a + q && q == b + rest
    ensures s == (a + b) + rest
  {
  }

  lemma ItemExact(t: Byte, u: Byte, v: Value, vs: seq<Value>)
    requires WellFormed(v) && TypeOf(v) == t && ItemsWellFormed(u, t, vs)
    ensures ItemsWellFormed(t, u, [v] + vs) && PutItems(t, u, [v] + vs) == Put(v) + PutItems(u, t, vs)
  {
    assert ([v] + vs)[1..] == vs;
  }
}

/**
 Which bytes these are: the encodings spelled out in numbers, as the Apache Thrift binary protocol specification has
 them.  Nothing here mentions a type code or a message type by name.
 */
module WireLayout {
  import opened Wire
  import opened Folding
  import opened Rpc
  import opened PersonService

  /** Four bytes, the most significant first; negative numbers in two's complement. */
  function Four(n: int): Bytes {
    var u := n % 0x1_0000_0000;
    [(u / 0x100_0000) as Byte, (u / 0x1_0000 % 0x100) as Byte, (u / 0x100 % 0x100) as Byte, (u % 0x100) as Byte]
  }

  function Two(n: int): Bytes {
    var u := n % 0x1_0000;
    [(u / 0x100) as Byte, (u % 0x100) as Byte]
  }

  function Ascii(s: string): Bytes
    requires forall i :: 0 <= i < |s| ==> s[i] < '\U{0080}'
  {
    seq(|s|, i requires 0 <= i < |s| => s[i] as int as Byte)
  }

  // ---------------------------------------------------------------- primitives

  lemma DivideTwice(u: nat)
    ensures u / 0x100 / 0x100 == u / 0x1_0000 && u / 0x100 / 0x100 / 0x100 == u / 0x100_0000
  {
  }

  lemma U32Layout(u: nat)
    requires u < 0x1_0000_0000
    ensures PutU32(u) == [(u / 0x100_0000) as Byte, (u / 0x1_0000 % 0x100) as Byte,
                          (u / 0x100 % 0x100) as Byte, (u % 0x100) as Byte]
  {
    DivideTwice(u);
  }

  lemma I32Layout(n: Int32)
    ensures var u := n as int % 0x1_0000_0000;
            PutI32(n) == [(u / 0x100_0000) as Byte, (u / 0x1_0000 % 0x100) as Byte,
                          (u / 0x100 % 0x100) as Byte, (u % 0x100) as Byte] == Four(n as int)
  {
    U32Layout(n as int % 0x1_0000_0000);
  }

  lemma I16Layout(n: Int16)
    ensures var u := n as int % 0x1_0000;
            PutI16(n) == [(u / 0x100) as Byte, (u % 0x100) as Byte] == Two(n as int)
  {
  }

  lemma StringLayout(b: Bytes)
    requires |b| < 0x8000_0000
    ensures PutString(b) == Four(|b|) + b
  {
    I32Layout(|b| as Int32);
  }

  /** Negative sizes are not read, and nothing is read that is not there. */
  lemma StringErrors(s: Bytes)
    ensures |s| < 4 ==> GetString(s) == Failed(EndOfInput)
    ensures |s| >= 4 && s[0] >= 128 ==> GetString(s) == Failed(NegativeSize)
  {
  }

  lemma StringRead(b: Bytes, tail: Bytes)
    requires |b| < 0x8000_0000
    ensures GetString(Four(|b|) + b + tail) == Done(b, tail)
  {
    StringLayout(b);
    StringRoundTrip(b, tail);
  }

  // ---------------------------------------------------------------- values

  /** The type codes, and the sizes of the values that have one. */
  lemma ValueLayout(v: Value)
    requires WellFormed(v)
    ensures match v
            case Fixed(t, p) =>
              && TypeOf(v) == t && Put(v) == p
              && (if t == 2 || t == 3 then |p| == 1 else if t == 6 then |p| == 2 else (t == 4 || t == 10) && |p| == 8)
            case I32(n) => TypeOf(v) == 8 && Put(v) == Four(n as int)
            case Str(b) => TypeOf(v) == 11 && Put(v) == Four(|b|) + b
            case Struct(fs) => TypeOf(v) == 12 && Put(v) == PutFields(fs)
            case Map(k, t, items) => TypeOf(v) == 13 && Put(v) == [k, t] + Four(|items| / 2) + PutItems(k, t, items)
            case Sequence(kind, t, items) =>
              TypeOf(v) == kind && (kind == 14 || kind == 15) && Put(v) == [t] + Four(|items|) + PutItems(t, t, items)
  {
    match v
    case I32(n) => I32Layout(n);
    case Str(b) => StringLayout(b);
    case Map(k, t, items) => I32Layout((|items| / 2) as Int32);
    case Sequence(kind, t, items) => I32Layout(|items| as Int32);
    case _ =>
  }

  /** Every value of such a size is one. */
  lemma FixedSizes(t: Byte, p: Bytes)
    requires ((t == 2 || t == 3) && |p| == 1) || (t == 6 && |p| == 2) || ((t == 4 || t == 10) && |p| == 8)
    ensures WellFormed(Fixed(t, p))
  {
  }

  /** A field is its type, its id and its value; a struct is its fields and a zero; a container is its items. */
  lemma FieldLayout(f: Field, fs: seq<Field>)
    requires FieldWellFormed(f) && FieldsWellFormed(fs)
    ensures PutField(f) == [TypeOf(f.value)] + Two(f.id as int) + Put(f.value)
    ensures FieldsWellFormed([f] + fs) && PutFields([f] + fs) == PutField(f) + PutFields(fs) && PutFields([]) == [0]
  {
    I16Layout(f.id);
    ConsFields(f, fs);
  }

  lemma ItemLayout(t: Byte, u: Byte, v: Value, vs: seq<Value>)
    requires WellFormed(v) && TypeOf(v) == t && ItemsWellFormed(u, t, vs)
    ensures ItemsWellFormed(t, u, [v] + vs) && PutItems(t, u, [v] + vs) == Put(v) + PutItems(u, t, vs)
    ensures PutItems(t, u, []) == []
  {
    ItemExact(t, u, v, vs);
  }

  /** Reading, and so skipping, by type code: a bool or a byte is one byte, an i16 two, an i64 or a double eight. */
  lemma SkipsBySize(p: Bytes, tail: Bytes)
    ensures |p| == 1 ==> GetValue(2, p + tail) == Done(Fixed(2, p), tail)
    ensures |p| == 1 ==> GetValue(3, p + tail) == Done(Fixed(3, p), tail)
    ensures |p| == 2 ==> GetValue(6, p + tail) == Done(Fixed(6, p), tail)
    ensures |p| == 8 ==> GetValue(4, p + tail) == Done(Fixed(4, p), tail)
    ensures |p| == 8 ==> GetValue(10, p + tail) == Done(Fixed(10, p), tail)
  {
    TakeRoundTrip(p, tail);
  }

  /** No other type code can be read. */
  lemma UnknownTypes(t: Byte, s: Bytes)
    requires t !in {2, 3, 4, 6, 8, 10, 11, 12, 13, 14, 15}
    ensures GetValue(t, s) == Failed(InvalidData)
  {
  }

  // ---------------------------------------------------------------- structs of the service

  lemma I32FieldLayout(id: Int16, n: Int32)
    ensures PutField(Field(id, I32(n))) == [8] + Two(id as int) + Four(n as int)
  {
    I16Layout(id);
    I32Layout(n);
  }

  lemma StringFieldLayout(id: Int16, b: Bytes)
    requires |b| < 0x8000_0000
    ensures PutField(Field(id, Str(b))) == [11] + Two(id as int) + (Four(|b|) + b)
  {
    I16Layout(id);
    StringLayout(b);
  }

  /** A Person is its three fields and a zero. */
  lemma PersonByFields(p: PersonView)
    requires |p.name| < 0x8000_0000
    ensures PersonBytes(p) ==
            PutField(Field(1, I32(p.id))) + (PutField(Field(2, Str(p.name))) + (PutField(Field(3, I32(p.age))) + [0]))
  {
    ThreeFields(Field(1, I32(p.id)), Field(2, Str(p.name)), Field(3, I32(p.age)));
  }

  lemma JoinFields(s: Bytes, f1: Bytes, f2: Bytes, f3: Bytes, a: Bytes, b: Bytes, c: Bytes, d: Bytes, e: Bytes,
                   f: Bytes, g: Bytes, h: Bytes)
    requires s == f1 + (f2 + (f3 + h)) && f1 == a + b && f2 == c + (d + e) && f3 == f + g
    ensures s == a + b + c + d + e + f + g + h
  {
  }

  lemma PersonLayout(p: PersonView)
    requires |p.name| < 0x8000_0000
    ensures PersonBytes(p) == [8, 0, 1] + Four(p.id as int) + [11, 0, 2] + Four(|p.name|) + p.name
                              + [8, 0, 3] + Four(p.age as int) + [0]
  {
    var f1, f2, f3 := PutField(Field(1, I32(p.id))), PutField(Field(2, Str(p.name))), PutField(Field(3, I32(p.age)));
    PersonByFields(p);
    I32FieldLayout(1, p.id);
    StringFieldLayout(2, p.name);
    I32FieldLayout(3, p.age);
    JoinFields(PersonBytes(p), f1, f2, f3, [8, 0, 1], Four(p.id as int), [11, 0, 2], Four(|p.name|), p.name,
               [8, 0, 3], Four(p.age as int), [0]);
  }

  lemma ArgsLayout(id: Int32)
    ensures ArgsBytes(id) == [8, 0, 1] + Four(id as int) + [0]
  {
    ConsFields(Field(1, I32(id)), []);
    I32FieldLayout(1, id);
  }

  lemma ResultLayout(p: PersonView)
    requires |p.name| < 0x8000_0000
    ensures ResultBytes(p) == [12, 0, 0] + PersonBytes(p) + [0]
  {
    FieldsOfPersonWellFormed(p);
    ConsFields(SuccessField(p), []);
    I16Layout(0);
  }

  lemma ExceptionByFields(x: AppException)
    requires |x.message| < 0x8000_0000
    ensures ExceptionBytes(x) == PutField(Field(1, Str(x.message))) + (PutField(Field(2, I32(x.kind))) + [0])
  {
    ExceptionWellFormed(x);
    var f1, f2 := Field(1, Str(x.message)), Field(2, I32(x.kind));
    ConsFields(f2, []);
    ConsFields(f1, [f2] + []);
    assert FieldsOfException(x) == [f1] + ([f2] + []);
  }

  lemma JoinTwo(s: Bytes, f1: Bytes, f2: Bytes, a: Bytes, b: Bytes, c: Bytes, d: Bytes, e: Bytes, f: Bytes)
    requires s == f1 + (f2 + f) && f1 == a + (b + c) && f2 == d + e
    ensures s == a + b + c + d + e + f
  {
  }

  lemma ExceptionLayout(x: AppException)
    requires |x.message| < 0x8000_0000
    ensures ExceptionBytes(x) == [11, 0, 1] + Four(|x.message|) + x.message + [8, 0, 2] + Four(x.kind as int) + [0]
  {
    var f1, f2 := PutField(Field(1, Str(x.message))), PutField(Field(2, I32(x.kind)));
    ExceptionByFields(x);
    StringFieldLayout(1, x.message);
    I32FieldLayout(2, x.kind);
    JoinTwo(ExceptionBytes(x), f1, f2, [11, 0, 1], Four(|x.message|), x.message, [8, 0, 2], Four(x.kind as int), [0]);
  }

  // ---------------------------------------------------------------- messages

  lemma VersionLayout(mtype: Byte)
    ensures PutI32((VERSION_1 + mtype as int) as Int32) == [0x80, 1, 0, mtype]
  {
    I32Layout((VERSION_1 + mtype as int) as Int32);
  }

  lemma HeaderLayout(h: Header)
    requires |h.name| < 0x8000_0000
    ensures PutMessageBegin(h) == [0x80, 1, 0, h.mtype] + Four(|h.name|) + h.name + Four(h.seqid as int)
  {
    VersionLayout(h.mtype);
    StringLayout(h.name);
    I32Layout(h.seqid);
  }

  /** The two methods' names. */
  lemma Names()
    ensures PING == Ascii("ping") && GET_PERSON == Ascii("getPerson")
  {
  }

  /** What the stubs send. */
  lemma PingLayout(seqid: Int32)
    ensures RequestBytes(Ping, seqid) == [0x80, 1, 0, 1] + [0, 0, 0, 4] + Ascii("ping") + Four(seqid as int) + [0]
  {
    Names();
    HeaderLayout(Header(PING, 1, seqid));
  }

  lemma GetPersonLayout(id: Int32, seqid: Int32)
    ensures RequestBytes(GetPerson(id), seqid) ==
            [0x80, 1, 0, 1] + [0, 0, 0, 9] + Ascii("getPerson") + Four(seqid as int)
            + ([8, 0, 1] + Four(id as int) + [0])
  {
    Names();
    HeaderLayout(Header(GET_PERSON, 1, seqid));
    ArgsLayout(id);
  }

  /** What the processor answers when the handler returns ... */
  lemma ReplyLayout(handler: Handler, k: nat, c: Call, seqid: Int32)
    requires Sendable(handler, k, c) && !Answered(handler, k, c).Raised?
    ensures var body := if c.Ping? then [0] else [12, 0, 0] + PersonBytes(handler.getPerson(k, c.id).value) + [0];
            ReplyBytes(handler, k, c, seqid) ==
            [0x80, 1, 0, 2] + Four(|NameOf(c)|) + NameOf(c) + Four(seqid as int) + body
  {
    HeaderLayout(Header(NameOf(c), 2, seqid));
    if c.GetPerson? {
      ResultLayout(handler.getPerson(k, c.id).value);
    }
  }

  /** ... and when it throws: its text, and kind 0, unknown. */
  lemma ThrownLayout(handler: Handler, k: nat, c: Call, seqid: Int32)
    requires Sendable(handler, k, c) && Answered(handler, k, c).Raised?
    ensures var what := Answered(handler, k, c).exception.message;
            && what == (if c.Ping? then handler.ping(k).what else handler.getPerson(k, c.id).what)
            && |what| < 0x8000_0000
            && ReplyBytes(handler, k, c, seqid) ==
               [0x80, 1, 0, 3] + Four(|NameOf(c)|) + NameOf(c) + Four(seqid as int)
               + ([11, 0, 1] + Four(|what|) + what + [8, 0, 2] + [0, 0, 0, 0] + [0])
  {
    HeaderLayout(Header(NameOf(c), 3, seqid));
    ExceptionLayout(AppException(Answered(handler, k, c).exception.message, 0));
  }

  /** The exceptions the generated code makes up itself. */
  lemma OwnExceptions(name: Bytes)
    ensures InvalidMethod(name) == AppException(Ascii("Invalid method name: '") + name + Ascii("'"), 1)
    ensures AppException(UNKNOWN_RESULT, MISSING_RESULT) == AppException(Ascii("getPerson failed: unknown result"), 5)
  {
  }

  /** What is out when a string turns out not to fit. */
  lemma CutPersonLayout(p: PersonView)
    ensures CutPerson(p) == [8, 0, 1] + Four(p.id as int) + [11, 0, 2]
    ensures CutResult(p) == [12, 0, 0] + CutPerson(p)
  {
    I32FieldLayout(1, p.id);
    I16Layout(0);
    I16Layout(2);
  }

  lemma CutExceptionLayout(name: Bytes, seqid: Int32)
    requires |name| < 0x8000_0000
    ensures CutException(name, seqid) == [0x80, 1, 0, 3] + Four(|name|) + name + Four(seqid as int) + [11, 0, 1]
  {
    I16Layout(1);
    HeaderLayout(Header(name, 3, seqid));
  }

  /** An answer fits exactly if its string is shorter than 2^31 bytes. */
  lemma Fits(handler: Handler, k: nat, c: Call)
    ensures Sendable(handler, k, c) <==>
            match c
            case Ping => handler.ping(k).Throws? ==> |handler.ping(k).what| < 0x8000_0000
            case GetPerson(id) =>
              (match handler.getPerson(k, id)
               case Returns(p) => |p.name| < 0x8000_0000
               case Throws(what) => |what| < 0x8000_0000)
  {
  }

  // ---------------------------------------------------------------- message headers that can be read

  /** The strict encoding, whatever its third byte, and the old one, which begins with the name. */
  lemma HeadersRead(x: Byte, h: Header, tail: Bytes)
    requires |h.name| < 0x8000_0000
    ensures GetMessageBegin([0x80, 1, x, h.mtype] + (Four(|h.name|) + h.name + (Four(h.seqid as int) + tail))) ==
            Done(h, tail)
    ensures GetMessageBegin(Four(|h.name|) + (h.name + ([h.mtype] + (Four(h.seqid as int) + tail)))) == Done(h, tail)
  {
    StrictRead(x, h, tail);
    OldRead(h, tail);
  }

  lemma StrictRead(x: Byte, h: Header, tail: Bytes)
    requires |h.name| < 0x8000_0000
    ensures GetMessageBegin([0x80, 1, x, h.mtype] + (Four(|h.name|) + h.name + (Four(h.seqid as int) + tail))) ==
            Done(h, tail)
  {
    var p := Four(h.seqid as int) + tail;
    var q := Four(|h.name|) + h.name + p;
    var s := [0x80, 1, x, h.mtype] + q;
    I32Layout(h.seqid);
    I32RoundTrip(h.seqid, tail);
    StringLayout(h.name);
    StringRoundTrip(h.name, p);
    assert s[4..] == q;
    StrictWord(x, h.mtype);
    var n := GetI32(s).value;
    StrictHeader(n, q, h, p, tail);
    MessageParts(h, s, n, q, tail);
  }

  lemma StrictWord(x: Byte, mtype: Byte)
    ensures var u := GetU32(0x80, 1, x, mtype); 0x8000_0000 <= u && u / 0x1_0000 == 0x8001 && u % 0x100 == mtype as int
  {
  }

  lemma StrictHeader(n: Int32, q: Bytes, h: Header, p: Bytes, tail: Bytes)
    requires n < 0 && (n as int + 0x1_0000_0000) / 0x1_0000 == 0x8001
    requires (n as int + 0x1_0000_0000) % 0x100 == h.mtype as int
    requires GetString(q) == Done(h.name, p) && GetI32(p) == Done(h.seqid, tail)
    ensures GetStrict(n, q) == Done(h, tail)
  {
  }

  lemma OldRead(h: Header, tail: Bytes)
    requires |h.name| < 0x8000_0000
    ensures GetMessageBegin(Four(|h.name|) + (h.name + ([h.mtype] + (Four(h.seqid as int) + tail)))) == Done(h, tail)
  {
    var p := Four(h.seqid as int) + tail;
    var q := [h.mtype] + p;
    I32Layout(h.seqid);
    I32RoundTrip(h.seqid, tail);
    I32Layout(|h.name| as Int32);
    I32RoundTrip(|h.name| as Int32, h.name + q);
    TakeRoundTrip(h.name, q);
    assert q[1..] == p;
  }

  /** And nothing else can be read as one. */
  lemma HeaderExact(s: Bytes)
    requires GetMessageBegin(s).Done?
    ensures var h, tail := GetMessageBegin(s).value, GetMessageBegin(s).rest;
            && |h.name| < 0x8000_0000
            && ((exists x: Byte ::
                   s == [0x80, 1, x, h.mtype] + (Four(|h.name|) + h.name + (Four(h.seqid as int) + tail)))
                || s == Four(|h.name|) + (h.name + ([h.mtype] + (Four(h.seqid as int) + tail))))
  {
    I32Exact(s);
    var n, q := GetI32(s).value, GetI32(s).rest;
    var h, tail := GetMessageBegin(s).value, GetMessageBegin(s).rest;
    if n < 0 {
      StrictExact(n, q, h, tail);
      StrictWordExact(s, n);
      assert s == s[..4] + q;
    } else {
      OldExact(n, q, h, tail);
      I32Layout(n);
    }
  }

  lemma StrictExact(n: Int32, q: Bytes, h: Header, tail: Bytes)
    requires n < 0 && GetStrict(n, q) == Done(h, tail)
    ensures |h.name| < 0x8000_0000 && q == Four(|h.name|) + h.name + (Four(h.seqid as int) + tail)
    ensures (n as int + 0x1_0000_0000) / 0x1_0000 == 0x8001 && (n as int + 0x1_0000_0000) % 0x100 == h.mtype as int
  {
    StringExact(q);
    StringLayout(h.name);
    I32Exact(GetString(q).rest);
    I32Layout(h.seqid);
  }

  lemma StrictWordExact(s: Bytes, n: Int32)
    requires |s| >= 4 && GetI32(s).value == n && n < 0 && (n as int + 0x1_0000_0000) / 0x1_0000 == 0x8001
    ensures s[0] == 0x80 && s[1] == 1 && s[3] as int == (n as int + 0x1_0000_0000) % 0x100
  {
    var u := GetU32(s[0], s[1], s[2], s[3]);
    assert u / 0x100 == 0x100 * (0x100 * (s[0] as int) + s[1] as int) + s[2] as int;
    assert u / 0x100 / 0x100 == 0x100 * (s[0] as int) + s[1] as int;
  }

  lemma OldExact(n: Int32, q: Bytes, h: Header, tail: Bytes)
    requires n >= 0 && Take(n as int, q).Done?
    requires var p := Take(n as int, q).rest;
             p != [] && GetI32(p[1..]) == Done(h.seqid, tail) && h == Header(Take(n as int, q).value, p[0], h.seqid)
    ensures n as int == |h.name| < 0x8000_0000 && q == h.name + ([h.mtype] + (Four(h.seqid as int) + tail))
  {
    var p := Take(n as int, q).rest;
    I32Exact(p[1..]);
    I32Layout(h.seqid);
    assert p == [p[0]] + p[1..];
    assert q == q[..n] + q[n..];
  }
}

/** What the two ends of PersonService put on the wire and make of what they read: the specification of an RPC. */
module Rpc {
  import opened Wire
  import opened Folding

  /** Message types (Apache Thrift binary protocol specification, section "Message"). */
  const T_CALL: Byte := 1
  const T_REPLY: Byte := 2
  const T_EXCEPTION: Byte := 3
  const T_ONEWAY: Byte := 4

  /** The version word 0x80010000 of the strict encoding, as a signed number, plus the message type. */
  const VERSION_1: int := 0x8001_0000 - 0x1_0000_0000

  /** "ping" and "getPerson" */
  const PING: Bytes := [112, 105, 110, 103]
  const GET_PERSON: Bytes := [103, 101, 116, 80, 101, 114, 115, 111, 110]

  /** "Invalid method name: '" and "'" */
  const INVALID_METHOD: Bytes :=
    [73, 110, 118, 97, 108, 105, 100, 32, 109, 101, 116, 104, 111, 100, 32, 110, 97, 109, 101, 58, 32, 39]
  const QUOTE: Bytes := [39]

  /** TApplicationException kinds. */
  const UNKNOWN: Int32 := 0
  const UNKNOWN_METHOD: Int32 := 1
  const MISSING_RESULT: Int32 := 5

  datatype Header = Header(name: Bytes, mtype: Byte, seqid: Int32)

  function PutMessageBegin(h: Header): Bytes
    requires |h.name| < SIZE_LIMIT
  {
    PutI32((VERSION_1 + h.mtype as int) as Int32) + PutString(h.name) + PutI32(h.seqid)
  }

  /** Both encodings are read: the strict one with the version word, and the old one that starts with the name. */
  function GetMessageBegin(s: Bytes): (r: Parse<Header>)
    ensures r.Done? ==> |r.rest| < |s|
  {
    var (n, q) :- GetI32(s);
    if n < 0 then GetStrict(n, q)
    else
      var (name, p) :- Take(n as int, q);
      var (mtype, o) :- GetByte(p);
      var (seqid, l) :- GetI32(o);
      Done(Header(name, mtype, seqid), l)
  }

  /** The strict encoding, behind its version word n. */
  function GetStrict(n: Int32, q: Bytes): (r: Parse<Header>)
    requires n < 0
    ensures r.Done? ==> |r.rest| < |q|
  {
    var u := n as int + 0x1_0000_0000;
    if u / 0x1_0000 != 0x8001 then Failed(BadVersion)
    else
      var (name, p) :- GetString(q);
      var (seqid, o) :- GetI32(p);
      Done(Header(name, (u % 0x100) as Byte, seqid), o)
  }

  /** What the version word says: the type below, the version above. */
  lemma VersionWord(mtype: Byte)
    ensures var u := VERSION_1 + mtype as int + 0x1_0000_0000;
            u / 0x1_0000 == 0x8001 && u % 0x100 == mtype as int
  {
  }

  lemma StrictParts(h: Header, n: Int32, q: Bytes, p: Bytes, tail: Bytes)
    requires n < 0 && n as int + 0x1_0000_0000 == VERSION_1 + h.mtype as int + 0x1_0000_0000
    requires GetString(q) == Done(h.name, p) && GetI32(p) == Done(h.seqid, tail)
    ensures GetStrict(n, q) == Done(h, tail)
  {
    VersionWord(h.mtype);
  }

  lemma MessageParts(h: Header, s: Bytes, n: Int32, q: Bytes, tail: Bytes)
    requires n < 0 && GetI32(s) == Done(n, q) && GetStrict(n, q) == Done(h, tail)
    ensures GetMessageBegin(s) == Done(h, tail)
  {
  }

  lemma MessageBeginRoundTrip(h: Header, tail: Bytes)
    requires |h.name| < SIZE_LIMIT
    ensures GetMessageBegin(PutMessageBegin(h) + tail) == Done(h, tail)
  {
    var version := (VERSION_1 + h.mtype as int) as Int32;
    var p := PutI32(h.seqid) + tail;
    var q := PutString(h.name) + p;
    I32RoundTrip(h.seqid, tail);
    StringRoundTrip(h.name, p);
    StrictParts(h, version, q, p, tail);
    I32RoundTrip(version, q);
    Regroup(PutI32(version), PutString(h.name), PutI32(h.seqid), tail);
    MessageParts(h, PutMessageBegin(h) + tail, version, q, tail);
  }

  // ---------------------------------------------------------------- exceptions on the wire

  datatype AppException = AppException(message: Bytes, kind: Int32)

  const NO_EXCEPTION: AppException := AppException([], UNKNOWN)

  function FieldsOfException(x: AppException): seq<Field> {
    [Field(1, Str(x.message)), Field(2, I32(x.kind))]
  }

  function ExceptionField(x: AppException, f: Field): AppException {
    if f.id == 1 && f.value.Str? then x.(message := f.value.bytes)
    else if f.id == 2 && f.value.I32? then x.(kind := f.value.n)
    else x
  }

  function ExceptionFields(x: AppException, fs: seq<Field>): AppException {
    Fold(ExceptionField, x, fs)
  }

  /** Message and kind are the last string sent as field 1 and the last i32 sent as field 2; the rest is skipped. */
  lemma {:induction false} ExceptionFieldsLast(x: AppException, fs: seq<Field>)
    requires Typed(fs)
    ensures var r, m, k := ExceptionFields(x, fs), LastMatch(fs, 1, T_STRING), LastMatch(fs, 2, T_I32);
            && (if m >= 0 then fs[m].value == Str(r.message) else r.message == x.message)
            && (if k >= 0 then fs[k].value == I32(r.kind) else r.kind == x.kind)
  {
    if fs != [] {
      var init, f := fs[..|fs| - 1], fs[|fs| - 1];
      assert fs == init + [f] && TypeTells(f.value);
      ExceptionFieldsLast(x, init);
      LastMatchStep(init, f, 1, T_STRING);
      LastMatchStep(init, f, 2, T_I32);
      FoldStep(ExceptionField, x, init, f);
    }
  }

  lemma ExceptionWellFormed(x: AppException)
    requires |x.message| < SIZE_LIMIT
    ensures FieldsWellFormed(FieldsOfException(x))
  {
    var f1, f2 := Field(1, Str(x.message)), Field(2, I32(x.kind));
    ConsFields(f2, []);
    ConsFields(f1, [f2] + []);
    assert FieldsOfException(x) == [f1] + ([f2] + []);
  }

  function ExceptionBytes(x: AppException): Bytes
    requires |x.message| < SIZE_LIMIT
  {
    ExceptionWellFormed(x);
    PutFields(FieldsOfException(x))
  }

  lemma ExceptionRoundTrip(x: AppException, tail: Bytes)
    requires |x.message| < SIZE_LIMIT
    ensures GetFields(ExceptionBytes(x) + tail) == Done(FieldsOfException(x), tail)
    ensures ExceptionFields(NO_EXCEPTION, FieldsOfException(x)) == x
  {
    ExceptionWellFormed(x);
    FieldsRoundTrip(FieldsOfException(x), tail);
    var f1, f2 := Field(1, Str(x.message)), Field(2, I32(x.kind));
    assert FieldsOfException(x) == ([] + [f1]) + [f2];
    FoldStep(ExceptionField, NO_EXCEPTION, [], f1);
    FoldStep(ExceptionField, NO_EXCEPTION, [] + [f1], f2);
  }

  // ---------------------------------------------------------------- arguments and results

  /** `PersonService_getPerson_args`: the id, 0 if none is sent, and whether one was sent. */
  datatype ArgsView = ArgsView(id: Int32, isset: bool)

  const NO_ARGS: ArgsView := ArgsView(0, false)

  function ArgsField(a: ArgsView, f: Field): ArgsView {
    if f.id == 1 && f.value.I32? then ArgsView(f.value.n, true) else a
  }

  function ArgsFields(a: ArgsView, fs: seq<Field>): ArgsView {
    Fold(ArgsField, a, fs)
  }

  /** The args are the last i32 sent as field 1; every other field is skipped. */
  lemma {:induction false} ArgsFieldsLast(a: ArgsView, fs: seq<Field>)
    requires Typed(fs)
    ensures var r, k := ArgsFields(a, fs), LastMatch(fs, 1, T_I32);
            if k >= 0 then r.isset && fs[k].value == I32(r.id) else r == a
  {
    if fs != [] {
      var init, f := fs[..|fs| - 1], fs[|fs| - 1];
      assert fs == init + [f] && TypeTells(f.value);
      ArgsFieldsLast(a, init);
      LastMatchStep(init, f, 1, T_I32);
      FoldStep(ArgsField, a, init, f);
    }
  }

  function ArgsBytes(id: Int32): Bytes {
    ConsFields(Field(1, I32(id)), []);
    PutFields([Field(1, I32(id))] + [])
  }

  lemma ArgsRoundTrip(id: Int32, before: ArgsView, tail: Bytes)
    ensures GetFields(ArgsBytes(id) + tail) == Done([Field(1, I32(id))], tail)
    ensures ArgsFields(before, [Field(1, I32(id))]) == ArgsView(id, true)
  {
    ConsFields(Field(1, I32(id)), []);
    FieldsRoundTrip([Field(1, I32(id))] + [], tail);
    FoldStep(ArgsField, before, [], Field(1, I32(id)));
    assert [] + [Field(1, I32(id))] == [Field(1, I32(id))] == [Field(1, I32(id))] + [];
  }

  /** `PersonService_getPerson_presult`: the Person it points to, and whether one was read. */
  datatype ResultView = ResultView(success: PersonView, isset: bool)

  function ResultField(r: ResultView, f: Field): ResultView {
    if f.id == 0 && f.value.Struct? then ResultView(PersonFields(r.success, f.value.fields), true) else r
  }

  function ResultFields(r: ResultView, fs: seq<Field>): ResultView {
    Fold(ResultField, r, fs)
  }

  /** The fields of all structs sent as field 0, one after the other. */
  function SentAsSuccess(fs: seq<Field>): seq<Field> {
    if fs == [] then []
    else
      var f := fs[|fs| - 1];
      SentAsSuccess(fs[..|fs| - 1]) + if f.id == 0 && f.value.Struct? then f.value.fields else []
  }

  /** The presult's Person has read the structs sent as field 0, in order; every other field is skipped. */
  lemma {:induction false} ResultFieldsAll(r: ResultView, fs: seq<Field>)
    ensures ResultFields(r, fs).success == PersonFields(r.success, SentAsSuccess(fs))
    ensures ResultFields(r, fs).isset <==>
            r.isset || exists i :: 0 <= i < |fs| && fs[i].id == 0 && fs[i].value.Struct?
  {
    if fs == [] {
      assert ResultFields(r, fs) == r;
    } else {
      var init, f := fs[..|fs| - 1], fs[|fs| - 1];
      assert fs == init + [f];
      ResultFieldsAll(r, init);
      FoldStep(ResultField, r, init, f);
      if f.id == 0 && f.value.Struct? {
        FoldConcat(PersonField, r.success, SentAsSuccess(init), f.value.fields);
      } else {
        assert SentAsSuccess(init) + [] == SentAsSuccess(init);
        assert forall i :: 0 <= i < |fs| && fs[i].id == 0 && fs[i].value.Struct? ==> fs[i] == init[i];
        assert forall i :: 0 <= i < |init| ==> init[i] == fs[i];
      }
    }
  }

  /** A field that cannot be read leaves the result alone, but for a Person, which is read as far as it goes. */
  function BodySoFar(r: ResultView, ttype: Byte, id: Int16, body: Bytes): ResultView {
    if ttype == T_STRUCT && id == 0 then r.(success := PersonFields(r.success, ReadFields(body).fields)) else r
  }

  function TurnSoFar(r: ResultView, s: Bytes): ResultView {
    match GetFieldBegin(s)
    case Done(h, q) => BodySoFar(r, h.0, h.1, q)
    case Failed(_) => r
  }

  /** What a presult has taken from bytes that cannot be read to the end. */
  function ResultSoFar(r: ResultView, s: Bytes): ResultView
    decreases |s|
  {
    match TakeTurn(s)
    case Stop(_) => r
    case Next(f, rest) => ResultSoFar(ResultField(r, f), rest)
    case Bad(_) => TurnSoFar(r, s)
  }

  lemma {:induction false} ResultSoFarPast(r: ResultView, s: Bytes, rest: Bytes)
    requires ReadFields(s).Aborted? && FieldsWellFormed(ReadFields(s).fields) && s == Sent(ReadFields(s).fields) + rest
    requires TakeTurn(rest).Bad?
    ensures ResultSoFar(r, s) == TurnSoFar(ResultFields(r, ReadFields(s).fields), rest)
    decreases |s|
  {
    var t := TakeTurn(s);
    if t.Next? {
      var fs := ReadFields(t.rest).fields;
      assert ReadFields(s).fields == [t.field] + fs && ([t.field] + fs)[1..] == fs;
      TakenField(s);
      SameRest(PutField(t.field), Sent(fs), t.rest, rest, s);
      ResultSoFarPast(ResultField(r, t.field), t.rest, rest);
      FoldConcat(ResultField, r, [t.field], fs);
      FoldStep(ResultField, r, [], t.field);
      assert [] + [t.field] == [t.field];
    } else {
      assert ReadFields(s).fields == [] && s == [] + rest == rest;
      assert ResultFields(r, []) == r;
    }
  }

  lemma SameRest(a: Bytes, b: Bytes, p: Bytes, rest: Bytes, s: Bytes)
    requires s == a + p && s == (a + b) + rest
    ensures p == b + rest
  {
    assert p == s[|a|..] && b + rest == s[|a|..];
  }

  predicate StartsWithPerson(s: Bytes) {
    |s| >= 3 && s[0] == 12 && s[1] == 0 && s[2] == 0
  }

  lemma PersonAhead(s: Bytes)
    ensures StartsWithPerson(s) ==> GetFieldBegin(s) == Done((12, 0), s[3..])
    ensures !StartsWithPerson(s) && GetFieldBegin(s).Done? ==> GetFieldBegin(s).value != (12, 0)
  {
    if |s| >= 3 {
      assert s[1..][2..] == s[3..] && s[1..][0] == s[1] && s[1..][1] == s[2];
    }
  }

  lemma TurnSoFarMeans(r: ResultView, s: Bytes)
    ensures TurnSoFar(r, s) ==
            if StartsWithPerson(s) then ResultView(PersonFields(r.success, ReadFields(s[3..]).fields), r.isset) else r
  {
    PersonAhead(s);
  }

  /** A presult that breaks off has its fields so far, and a Person that breaks off as far as that one came. */
  lemma ResultBrokenOff(r: ResultView, s: Bytes) returns (rest: Bytes)
    requires ReadFields(s).Aborted?
    ensures FieldsWellFormed(ReadFields(s).fields) && s == Sent(ReadFields(s).fields) + rest
    ensures var so := ResultFields(r, ReadFields(s).fields);
            ResultSoFar(r, s) ==
            if StartsWithPerson(rest) then
              ResultView(PersonFields(so.success, ReadFields(rest[3..]).fields), so.isset)
            else so
  {
    rest := AbortedAfter(s);
    ResultSoFarPast(r, s, rest);
    TurnSoFarMeans(ResultFields(r, ReadFields(s).fields), rest);
  }

  lemma OneResultTurn(r: ResultView, s: Bytes)
    ensures var turn := TakeTurn(s);
            && (turn.Next? ==> ResultSoFar(r, s) == ResultSoFar(ResultField(r, turn.field), turn.rest))
            && (turn.Bad? ==> ResultSoFar(r, s) == TurnSoFar(r, s))
  {
  }

  predicate SameResult(r: ResultView, q: ResultView) {
    r.isset == q.isset && SameButName(r.success, q.success)
  }

  function SuccessField(p: PersonView): Field {
    Field(0, Struct(FieldsOfPerson(p)))
  }

  function ResultBytes(p: PersonView): Bytes
    requires |p.name| < SIZE_LIMIT
  {
    FieldsOfPersonWellFormed(p);
    ConsFields(SuccessField(p), []);
    PutFields([SuccessField(p)] + [])
  }

  /** Whatever Person the client passes in, it comes back with the three values the server sent. */
  lemma ResultRoundTrip(p: PersonView, before: ResultView, tail: Bytes)
    requires |p.name| < SIZE_LIMIT
    ensures GetFields(ResultBytes(p) + tail) == Done([SuccessField(p)], tail)
    ensures ResultFields(before, [SuccessField(p)]) ==
            ResultView(PersonView(p.id, p.name, p.age, true, true, true), true)
  {
    FieldsOfPersonWellFormed(p);
    ConsFields(SuccessField(p), []);
    FieldsRoundTrip([SuccessField(p)] + [], tail);
    FoldStep(ResultField, before, [], SuccessField(p));
    FieldsOfPersonRead(p, before.success);
    assert [] + [SuccessField(p)] == [SuccessField(p)] == [SuccessField(p)] + [];
  }

  lemma EmptyStruct(tail: Bytes)
    ensures PutFields([]) == [T_STOP] && GetFields([T_STOP] + tail) == Done([], tail)
  {
    NoFields(tail);
  }

  // ---------------------------------------------------------------- calls

  datatype Call = Ping | GetPerson(id: Int32)

  /** What a handler does with its k-th call: it returns, with a Person for `getPerson`, or throws. */
  datatype Answer<+T> = Returns(value: T) | Throws(what: Bytes)

  datatype Handler = Handler(ping: nat -> Answer<()>, getPerson: (nat, Int32) -> Answer<PersonView>)

  function NameOf(c: Call): Bytes {
    if c.Ping? then PING else GET_PERSON
  }

  /** The bytes a client sends for a call. */
  function RequestBytes(c: Call, seqid: Int32): Bytes {
    PutMessageBegin(Header(NameOf(c), T_CALL, seqid)) + (if c.Ping? then [T_STOP] else ArgsBytes(c.id))
  }

  /** The handler's answer fits the wire: its strings are shorter than 2^31 bytes. */
  predicate Sendable(handler: Handler, k: nat, c: Call) {
    match c
    case Ping => handler.ping(k).Throws? ==> |handler.ping(k).what| < SIZE_LIMIT
    case GetPerson(id) =>
      match handler.getPerson(k, id)
      case Returns(p) => |p.name| < SIZE_LIMIT
      case Throws(what) => |what| < SIZE_LIMIT
  }

  function ExceptionReply(name: Bytes, seqid: Int32, x: AppException): Bytes
    requires |name| < SIZE_LIMIT && |x.message| < SIZE_LIMIT
  {
    PutMessageBegin(Header(name, T_EXCEPTION, seqid)) + ExceptionBytes(x)
  }

  /** The bytes a processor sends back for its k-th call. */
  function ReplyBytes(handler: Handler, k: nat, c: Call, seqid: Int32): Bytes
    requires Sendable(handler, k, c)
  {
    match c
    case Ping =>
      (match handler.ping(k)
       case Returns(_) => PutMessageBegin(Header(PING, T_REPLY, seqid)) + [T_STOP]
       case Throws(what) => ExceptionReply(PING, seqid, AppException(what, UNKNOWN)))
    case GetPerson(id) =>
      (match handler.getPerson(k, id)
       case Returns(p) => PutMessageBegin(Header(GET_PERSON, T_REPLY, seqid)) + ResultBytes(p)
       case Throws(what) => ExceptionReply(GET_PERSON, seqid, AppException(what, UNKNOWN)))
  }

  // ---------------------------------------------------------------- answers that do not fit

  /** What gets out of a message header whose name does not fit: the version word. */
  function CutHeader(mtype: Byte): Bytes {
    PutI32((VERSION_1 + mtype as int) as Int32)
  }

  /** What gets out of an exception reply whose method name or text does not fit. */
  function CutException(name: Bytes, seqid: Int32): Bytes {
    if |name| >= SIZE_LIMIT then CutHeader(T_EXCEPTION)
    else PutMessageBegin(Header(name, T_EXCEPTION, seqid)) + ([T_STRING] + PutI16(1))
  }

  function CutResult(p: PersonView): Bytes {
    ([T_STRUCT] + PutI16(0)) + CutPerson(p)
  }

  /** What a processor has sent when its answer turns out not to fit. */
  function CutReply(handler: Handler, k: nat, c: Call, seqid: Int32): Bytes {
    match c
    case Ping => CutException(PING, seqid)
    case GetPerson(id) =>
      match handler.getPerson(k, id)
      case Returns(p) => PutMessageBegin(Header(GET_PERSON, T_REPLY, seqid)) + CutResult(p)
      case Throws(_) => CutException(GET_PERSON, seqid)
  }

  // ---------------------------------------------------------------- the server end

  /**
   What one turn of the processor does with what it reads: a reply; nothing, because the message is no call; a
   reply that breaks off because a string in it does not fit; or nothing, because the message cannot be read.
   */
  datatype Served =
    | Replied(reply: Bytes, rest: Bytes, invoked: bool)
    | NotACall(rest: Bytes)
    | Cut(sent: Bytes, rest: Bytes, invoked: bool)
    | Broke(error: Error)

  function InvalidMethod(name: Bytes): AppException {
    AppException(INVALID_METHOD + name + QUOTE, UNKNOWN_METHOD)
  }

  /** The message a processor that has served k calls finds in s: which call it is, or that it is not one. */
  function Serve(handler: Handler, k: nat, s: Bytes): Served {
    match GetMessageBegin(s)
    case Failed(e) => Broke(e)
    case Done(h, q) =>
      if h.mtype != T_CALL && h.mtype != T_ONEWAY then NotACall(q)
      else Dispatch(handler, k, h, q)
  }

  function Dispatch(handler: Handler, k: nat, h: Header, q: Bytes): Served {
    match GetFields(q)
    case Failed(e) => Broke(e)
    case Done(fs, rest) =>
      if h.name == PING then Invoke(handler, k, Ping, h.seqid, rest)
      else if h.name == GET_PERSON then Invoke(handler, k, GetPerson(ArgsFields(NO_ARGS, fs).id), h.seqid, rest)
      else if |INVALID_METHOD + h.name + QUOTE| < SIZE_LIMIT && |h.name| < SIZE_LIMIT then
        Replied(ExceptionReply(h.name, h.seqid, InvalidMethod(h.name)), rest, false)
      else Cut(CutException(h.name, h.seqid), rest, false)
  }

  function Invoke(handler: Handler, k: nat, c: Call, seqid: Int32, rest: Bytes): Served {
    if Sendable(handler, k, c) then Replied(ReplyBytes(handler, k, c, seqid), rest, true)
    else Cut(CutReply(handler, k, c, seqid), rest, true)
  }

  // ---------------------------------------------------------------- the client end

  datatype Received =
    | Returned(view: ResultView, rest: Bytes)
    | Thrown(exception: AppException, rest: Bytes)
    | Garbled(error: Error)

  function SkipIf(skip: bool, s: Bytes): Parse<()> {
    if !skip then Done((), s)
    else
      var (_, rest) :- GetValue(T_STRUCT, s);
      Done((), rest)
  }

  /** What comes in front of a result: the result itself, an exception in its place, or nothing that can be read. */
  datatype Announced =
    | ResultAt(rest: Bytes)
    | ExceptionIs(exception: AppException, rest: Bytes)
    | Unreadable(error: Error)

  /** `recv_*`: before the result is read, a struct is skipped if this is no reply, and one if the name differs. */
  function Announce(name: Bytes, s: Bytes): Announced {
    match GetMessageBegin(s)
    case Failed(e) => Unreadable(e)
    case Done(h, q) =>
      if h.mtype == T_EXCEPTION then
        (match GetFields(q)
         case Failed(e) => Unreadable(e)
         case Done(fs, rest) => ExceptionIs(ExceptionFields(NO_EXCEPTION, fs), rest))
      else
        match SkipIf(h.mtype != T_REPLY, q)
        case Failed(e) => Unreadable(e)
        case Done(_, p) =>
          match SkipIf(h.name != name, p)
          case Failed(e) => Unreadable(e)
          case Done(_, o) => ResultAt(o)
  }

  function Receive(name: Bytes, s: Bytes, before: ResultView): Received {
    match Announce(name, s)
    case Unreadable(e) => Garbled(e)
    case ExceptionIs(x, rest) => Thrown(x, rest)
    case ResultAt(o) =>
      match GetFields(o)
      case Failed(e) => Garbled(e)
      case Done(fs, rest) => Returned(ResultFields(before, fs), rest)
  }

  /** What a presult holds when receiving has ended in an exception. */
  function ReceivedSoFar(name: Bytes, s: Bytes, before: ResultView): ResultView {
    match Announce(name, s)
    case ResultAt(o) => ResultSoFar(before, o)
    case _ => before
  }

  // ---------------------------------------------------------------- transparency

  lemma DispatchKnown(handler: Handler, k: nat, c: Call, h: Header, q: Bytes, fs: seq<Field>, rest: Bytes)
    requires h.name == NameOf(c) && GetFields(q) == Done(fs, rest)
    requires c.GetPerson? ==> ArgsFields(NO_ARGS, fs).id == c.id
    ensures Dispatch(handler, k, h, q) == Invoke(handler, k, c, h.seqid, rest)
  {
    assert PING[0] != GET_PERSON[0];
  }

  /**
   Any message that is a call, one-way or not, with any arguments: the fields the method does not know are skipped to
   the byte, and the answer is the handler's, under the caller's sequence id.
   */
  lemma ServesCall(handler: Handler, k: nat, c: Call, h: Header, fs: seq<Field>, tail: Bytes)
    requires h.name == NameOf(c) && (h.mtype == 1 || h.mtype == 4) && FieldsWellFormed(fs)
    requires c.GetPerson? ==> var i := LastMatch(fs, 1, T_I32); if i >= 0 then fs[i].value == I32(c.id) else c.id == 0
    ensures Serve(handler, k, PutMessageBegin(h) + (PutFields(fs) + tail)) ==
            if Sendable(handler, k, c) then Replied(ReplyBytes(handler, k, c, h.seqid), tail, true)
            else Cut(CutReply(handler, k, c, h.seqid), tail, true)
  {
    MessageBeginRoundTrip(h, PutFields(fs) + tail);
    FieldsRoundTrip(fs, tail);
    WellFormedTyped(fs);
    ArgsFieldsLast(NO_ARGS, fs);
    DispatchKnown(handler, k, c, h, PutFields(fs) + tail, fs, tail);
  }

  /** A reply is a reply or an exception, for the method called and with the caller's sequence id. */
  lemma ReplyHeader(handler: Handler, k: nat, c: Call, seqid: Int32, tail: Bytes)
    requires Sendable(handler, k, c)
    ensures var r := GetMessageBegin(ReplyBytes(handler, k, c, seqid) + tail);
            && r.Done? && r.value.name == NameOf(c) && r.value.seqid == seqid
            && r.value.mtype == if Answered(handler, k, c).Raised? then 3 else 2
  {
    var throws := Answered(handler, k, c).Raised?;
    var h := Header(NameOf(c), if throws then T_EXCEPTION else T_REPLY, seqid);
    HeaderAndBody(h, ReplyBytes(handler, k, c, seqid)[|PutMessageBegin(h)|..], tail, ReplyBytes(handler, k, c, seqid));
  }

  /** So is one that breaks off. */
  lemma CutReplyHeader(handler: Handler, k: nat, c: Call, seqid: Int32, tail: Bytes)
    requires !Sendable(handler, k, c)
    ensures var r := GetMessageBegin(CutReply(handler, k, c, seqid) + tail);
            && r.Done? && r.value.name == NameOf(c) && r.value.seqid == seqid
            && r.value.mtype == if Answered(handler, k, c).Raised? then 3 else 2
  {
    var throws := Answered(handler, k, c).Raised?;
    var h := Header(NameOf(c), if throws then T_EXCEPTION else T_REPLY, seqid);
    HeaderAndBody(h, CutReply(handler, k, c, seqid)[|PutMessageBegin(h)|..], tail, CutReply(handler, k, c, seqid));
  }

  lemma HeaderAndBody(h: Header, body: Bytes, tail: Bytes, s: Bytes)
    requires |h.name| < SIZE_LIMIT && s == PutMessageBegin(h) + body
    ensures GetMessageBegin(s + tail) == Done(h, body + tail)
  {
    assert s + tail == PutMessageBegin(h) + (body + tail);
    MessageBeginRoundTrip(h, body + tail);
  }

  /** What the processor does with any bytes at all. */
  lemma ServeCases(handler: Handler, k: nat, s: Bytes)
    ensures var m := GetMessageBegin(s);
            var call := m.Done? && (m.value.mtype == 1 || m.value.mtype == 4);
            && (Serve(handler, k, s).NotACall? <==> m.Done? && !call)
            && (Serve(handler, k, s).Broke? <==> m.Failed? || (call && GetFields(m.rest).Failed?))
            && (m.Done? && !call ==> Serve(handler, k, s) == NotACall(m.rest))
            && (call && GetFields(m.rest).Done? ==>
                  var served := Serve(handler, k, s);
                  && served.rest == GetFields(m.rest).rest
                  && (served.invoked <==> m.value.name == PING || m.value.name == GET_PERSON))
  {
  }

  /** The processor takes a request off the stream, to the byte, and answers it under its sequence id. */
  lemma ServesRequest(handler: Handler, k: nat, c: Call, seqid: Int32, tail: Bytes)
    requires Sendable(handler, k, c)
    ensures Serve(handler, k, RequestBytes(c, seqid) + tail) == Replied(ReplyBytes(handler, k, c, seqid), tail, true)
  {
    var h := Header(NameOf(c), T_CALL, seqid);
    var args := if c.Ping? then [T_STOP] else ArgsBytes(c.id);
    assert RequestBytes(c, seqid) + tail == PutMessageBegin(h) + (args + tail);
    MessageBeginRoundTrip(h, args + tail);
    if c.Ping? {
      EmptyStruct(tail);
      DispatchKnown(handler, k, c, h, args + tail, [], tail);
    } else {
      ArgsRoundTrip(c.id, NO_ARGS, tail);
      DispatchKnown(handler, k, c, h, args + tail, [Field(1, I32(c.id))], tail);
    }
  }

  lemma ReceivesException(name: Bytes, seqid: Int32, x: AppException, before: ResultView, tail: Bytes)
    requires |name| < SIZE_LIMIT && |x.message| < SIZE_LIMIT
    ensures Receive(name, ExceptionReply(name, seqid, x) + tail, before) == Thrown(x, tail)
  {
    var h := Header(name, T_EXCEPTION, seqid);
    assert ExceptionReply(name, seqid, x) + tail == PutMessageBegin(h) + (ExceptionBytes(x) + tail);
    MessageBeginRoundTrip(h, ExceptionBytes(x) + tail);
    ExceptionRoundTrip(x, tail);
  }

  lemma ReceivesReply(name: Bytes, seqid: Int32, body: Bytes, fs: seq<Field>, before: ResultView, tail: Bytes)
    requires |name| < SIZE_LIMIT && GetFields(body + tail) == Done(fs, tail)
    ensures Receive(name, PutMessageBegin(Header(name, T_REPLY, seqid)) + body + tail, before) ==
            Returned(ResultFields(before, fs), tail)
  {
    var h := Header(name, T_REPLY, seqid);
    assert PutMessageBegin(h) + body + tail == PutMessageBegin(h) + (body + tail);
    MessageBeginRoundTrip(h, body + tail);
  }

  /** What the caller sees of one call. */
  datatype Seen = Pinged | Got(person: PersonView) | Raised(exception: AppException)

  /** What it should see: the handler's answer to this very call. */
  function Answered(handler: Handler, k: nat, c: Call): Seen {
    match c
    case Ping =>
      (match handler.ping(k)
       case Returns(_) => Pinged
       case Throws(what) => Raised(AppException(what, UNKNOWN)))
    case GetPerson(id) =>
      (match handler.getPerson(k, id)
       case Returns(p) => Got(PersonView(p.id, p.name, p.age, true, true, true))
       case Throws(what) => Raised(AppException(what, UNKNOWN)))
  }

  /** How that reaches the stub. */
  function Shown(seen: Seen, before: ResultView, rest: Bytes): Received {
    match seen
    case Pinged => Returned(before, rest)
    case Got(p) => Returned(ResultView(p, true), rest)
    case Raised(x) => Thrown(x, rest)
  }

  /** The client takes the reply off its stream, to the byte, and sees the handler's answer. */
  lemma ReceivesAnswer(handler: Handler, k: nat, c: Call, seqid: Int32, before: ResultView, tail: Bytes)
    requires Sendable(handler, k, c)
    ensures Receive(NameOf(c), ReplyBytes(handler, k, c, seqid) + tail, before) ==
            Shown(Answered(handler, k, c), before, tail)
  {
    match c {
      case Ping =>
        match handler.ping(k) {
          case Returns(_) =>
            EmptyStruct(tail);
            ReceivesReply(PING, seqid, [T_STOP], [], before, tail);
          case Throws(what) =>
            ReceivesException(PING, seqid, AppException(what, UNKNOWN), before, tail);
        }
      case GetPerson(id) =>
        match handler.getPerson(k, id) {
          case Returns(p) =>
            ResultRoundTrip(p, before, tail);
            ReceivesReply(GET_PERSON, seqid, ResultBytes(p), [SuccessField(p)], before, tail);
          case Throws(what) =>
            ReceivesException(GET_PERSON, seqid, AppException(what, UNKNOWN), before, tail);
        }
    }
  }

  /**
   Surprises: in front of the result a struct is skipped for a message that is not a reply, and one for a message that
   is about another method.
   */
  lemma SurprisesSkipped(name: Bytes, h: Header, one: seq<Field>, two: seq<Field>, tail: Bytes)
    requires |h.name| < SIZE_LIMIT && h.mtype != 3 && FieldsWellFormed(one) && FieldsWellFormed(two)
    ensures var p := (if h.name != name then PutFields(two) else []) + tail;
            Announce(name, PutMessageBegin(h) + ((if h.mtype != 2 then PutFields(one) else []) + p)) == ResultAt(tail)
  {
    var p := (if h.name != name then PutFields(two) else []) + tail;
    var q := (if h.mtype != 2 then PutFields(one) else []) + p;
    MessageBeginRoundTrip(h, q);
    StructSkipped(h.mtype != 2, one, p);
    StructSkipped(h.name != name, two, tail);
  }

  lemma StructSkipped(skip: bool, fs: seq<Field>, tail: Bytes)
    requires FieldsWellFormed(fs)
    ensures SkipIf(skip, (if skip then PutFields(fs) else []) + tail) == Done((), tail)
  {
    if skip {
      FieldsRoundTrip(fs, tail);
      StructRoundTrip(fs, PutFields(fs) + tail, tail);
    } else {
      assert [] + tail == tail;
    }
  }

  /** An exception ends the call in its place, whatever method it is about. */
  lemma ExceptionEndsCall(name: Bytes, h: Header, fs: seq<Field>, tail: Bytes)
    requires |h.name| < SIZE_LIMIT && h.mtype == 3 && FieldsWellFormed(fs)
    ensures Announce(name, PutMessageBegin(h) + (PutFields(fs) + tail)) ==
            ExceptionIs(ExceptionFields(NO_EXCEPTION, fs), tail)
  {
    MessageBeginRoundTrip(h, PutFields(fs) + tail);
    FieldsRoundTrip(fs, tail);
  }

  /** A method the processor does not know is answered with an exception, and its arguments are skipped, to the byte. */
  lemma UnknownMethodAnswered(handler: Handler, k: nat, h: Header, fs: seq<Field>, tail: Bytes)
    requires h.mtype == T_CALL && h.name != PING && h.name != GET_PERSON && |h.name| < SIZE_LIMIT - 23
    requires FieldsWellFormed(fs)
    ensures Serve(handler, k, PutMessageBegin(h) + (PutFields(fs) + tail)) ==
            Replied(ExceptionReply(h.name, h.seqid, InvalidMethod(h.name)), tail, false)
    ensures forall before: ResultView, more: Bytes ::
              Receive(h.name, ExceptionReply(h.name, h.seqid, InvalidMethod(h.name)) + more, before) ==
              Thrown(InvalidMethod(h.name), more)
  {
    MessageBeginRoundTrip(h, PutFields(fs) + tail);
    FieldsRoundTrip(fs, tail);
    forall before: ResultView, more: Bytes
      ensures Receive(h.name, ExceptionReply(h.name, h.seqid, InvalidMethod(h.name)) + more, before) ==
              Thrown(InvalidMethod(h.name), more)
    {
      ReceivesException(h.name, h.seqid, InvalidMethod(h.name), before, more);
    }
  }
}

/** PersonService.cpp: argument and result structs, client stub and processor over two byte streams. */
module PersonService {
  import opened Arithmetic
  import opened Wire
  import opened Folding
  import opened PersonCodec
  import opened Rpc

  // ---------------------------------------------------------------- library calls on a stream

  method ReadMessageBegin(iprot: Stream) returns (r: Result<Header>)
    modifies iprot
    ensures Took(r, GetMessageBegin(old(iprot.bytes)), iprot.bytes)
  {
    match GetMessageBegin(iprot.bytes) {
      case Done(h, rest) =>
        r := Ok(h);
        iprot.bytes := rest;
      case Failed(e) =>
        r := Err(e);
    }
  }

  method WriteMessageBegin(oprot: Stream, h: Header) returns (r: Result<()>)
    modifies oprot
    ensures if |h.name| < SIZE_LIMIT then r == Ok(()) && oprot.bytes == old(oprot.bytes) + PutMessageBegin(h)
            else r == Err(SizeLimit) && oprot.bytes == old(oprot.bytes) + CutHeader(h.mtype)
  {
    if |h.name| >= SIZE_LIMIT {
      oprot.bytes := oprot.bytes + CutHeader(h.mtype);
      return Err(SizeLimit);
    }
    oprot.bytes := oprot.bytes + PutMessageBegin(h);
    r := Ok(());
  }

  /** TApplicationException::read */
  method ReadException(iprot: Stream) returns (r: Result<AppException>)
    modifies iprot
    ensures match GetFields(old(iprot.bytes))
            case Done(fs, rest) => r == Ok(ExceptionFields(NO_EXCEPTION, fs)) && iprot.bytes == rest
            case Failed(e) => r == Err(e)
  {
    match GetFields(iprot.bytes) {
      case Done(fs, rest) =>
        r := Ok(ExceptionFields(NO_EXCEPTION, fs));
        iprot.bytes := rest;
      case Failed(e) =>
        r := Err(e);
    }
  }

  /** `writeMessageBegin` and TApplicationException::write, as every exception reply is sent. */
  method WriteExceptionReply(oprot: Stream, name: Bytes, seqid: Int32, x: AppException) returns (r: Result<()>)
    modifies oprot
    ensures if |name| < SIZE_LIMIT && |x.message| < SIZE_LIMIT
            then r == Ok(()) && oprot.bytes == old(oprot.bytes) + ExceptionReply(name, seqid, x)
            else r == Err(SizeLimit) && oprot.bytes == old(oprot.bytes) + CutException(name, seqid)
  {
    var _ :- WriteMessageBegin(oprot, Header(name, T_EXCEPTION, seqid));
    if |x.message| >= SIZE_LIMIT {
      oprot.bytes := oprot.bytes + ([T_STRING] + PutI16(1));
      return Err(SizeLimit);
    }
    oprot.bytes := oprot.bytes + ExceptionBytes(x);
    r := Ok(());
  }

  // ---------------------------------------------------------------- argument and result structs

  /** `read` of the structs that know no field (`ping_args`, `ping_presult`): every field is skipped. */
  method ReadNoFields(iprot: Stream) returns (r: Result<nat>)
    modifies iprot
    ensures match ReadFields(old(iprot.bytes))
            case Complete(_, rest) => r == Ok(Count(old(iprot.bytes), rest)) && iprot.bytes == rest
            case Aborted(_, e) => r == Err(e)
  {
    var xfer: nat := 0;
    ghost var start, whole := iprot.bytes, ReadFields(iprot.bytes);
    ghost var done: seq<Field> := [];
    PrependNothing(whole);
    var stop := false;
    while !stop
      invariant |iprot.bytes| <= |start| && xfer == Count(start, iprot.bytes)
      invariant if stop then whole == Complete(done, iprot.bytes) else whole == Prepend(done, ReadFields(iprot.bytes))
      decreases !stop, |iprot.bytes|
    {
      ghost var s, next := iprot.bytes, TakeTurn(iprot.bytes);
      OneTurn(whole, done, iprot.bytes);
      var turn :- SkipTurn(iprot);
      xfer := Add(xfer, turn.size, start, s, iprot.bytes);
      stop := turn.stop;
      if !stop {
        done := done + [next.field];
      }
    }
    return Ok(xfer);
  }

  /** One turn of that loop. */
  method SkipTurn(iprot: Stream) returns (r: Result<TurnTaken>)
    modifies iprot
    ensures match TakeTurn(old(iprot.bytes))
            case Stop(q) => r == Ok(TurnTaken(true, |old(iprot.bytes)| - |q|)) && iprot.bytes == q
            case Bad(e) => r == Err(e)
            case Next(_, q) => r == Ok(TurnTaken(false, |old(iprot.bytes)| - |q|)) && iprot.bytes == q
  {
    var header :- iprot.ReadFieldBegin();
    if header.ttype == T_STOP {
      return Ok(TurnTaken(true, header.size));
    }
    var size :- iprot.Skip(header.ttype);
    return Ok(TurnTaken(false, header.size + size));
  }

  class GetPersonArgs {
    var id: Int32
    var issetId: bool

    ghost function View(): ArgsView
      reads this
    {
      ArgsView(id, issetId)
    }

    constructor ()
      ensures View() == NO_ARGS
    {
      id, issetId := 0, false;
    }

    /** One turn of the loop of `read`. */
    method ReadTurn(iprot: Stream) returns (r: Result<TurnTaken>)
      modifies this, iprot
      ensures match TakeTurn(old(iprot.bytes))
              case Stop(q) =>
                && r == Ok(TurnTaken(true, |old(iprot.bytes)| - |q|))
                && iprot.bytes == q && View() == old(View())
              case Bad(e) => r == Err(e) && View() == old(View())
              case Next(f, q) =>
                && r == Ok(TurnTaken(false, |old(iprot.bytes)| - |q|))
                && iprot.bytes == q && View() == ArgsField(old(View()), f)
    {
      var header :- iprot.ReadFieldBegin();
      if header.ttype == T_STOP {
        return Ok(TurnTaken(true, header.size));
      }
      TypedRead(header.ttype, iprot.bytes);
      var size := 4;
      if header.id == 1 && header.ttype == T_I32 {
        id :- iprot.ReadI32();
        issetId := true;
      } else {
        size :- iprot.Skip(header.ttype);
      }
      return Ok(TurnTaken(false, header.size + size));
    }

    method Read(iprot: Stream) returns (r: Result<nat>)
      modifies this, iprot
      ensures match ReadFields(old(iprot.bytes))
              case Complete(fs, rest) =>
                && r == Ok(Count(old(iprot.bytes), rest))
                && iprot.bytes == rest && View() == ArgsFields(old(View()), fs)
              case Aborted(fs, e) => r == Err(e) && View() == ArgsFields(old(View()), fs)
    {
      var xfer: nat := 0;
      ghost var start, whole, before := iprot.bytes, ReadFields(iprot.bytes), View();
      ghost var done: seq<Field> := [];
      PrependNothing(whole);
      var stop := false;
      while !stop
        invariant |iprot.bytes| <= |start| && xfer == Count(start, iprot.bytes)
        invariant if stop then whole == Complete(done, iprot.bytes) else whole == Prepend(done, ReadFields(iprot.bytes))
        invariant View() == ArgsFields(before, done)
        decreases !stop, |iprot.bytes|
      {
        ghost var s, next := iprot.bytes, TakeTurn(iprot.bytes);
        OneTurn(whole, done, iprot.bytes);
        var turn :- ReadTurn(iprot);
        xfer := Add(xfer, turn.size, start, s, iprot.bytes);
        stop := turn.stop;
        if !stop {
          FoldStep(ArgsField, before, done, next.field);
          done := done + [next.field];
        }
      }
      return Ok(xfer);
    }
  }

  /** `PersonService_getPerson_pargs::write` */
  method WriteArgs(oprot: Stream, id: Int32) returns (xfer: nat)
    modifies oprot
    ensures oprot.bytes == old(oprot.bytes) + ArgsBytes(id) && xfer == |ArgsBytes(id)|
  {
    xfer := 0;
    var size := oprot.WriteI32Field(1, id);
    xfer := AddSmall(xfer, size);
    size := oprot.WriteFieldStop();
    xfer := AddSmall(xfer, size);
    ConsFields(Field(1, I32(id)), []);
  }

  /** The bytes of a result: its field's header, the Person, the stop byte. */
  lemma ResultParts(p: PersonView, before: Bytes)
    requires |p.name| < SIZE_LIMIT
    ensures before + ([T_STRUCT] + PutI16(0)) + PersonBytes(p) + [T_STOP] == before + ResultBytes(p)
    ensures |ResultBytes(p)| == |PersonBytes(p)| + 4 == 26 + |p.name|
  {
    FieldsOfPersonWellFormed(p);
    ConsFields(SuccessField(p), []);
    PersonLength(p);
    RegroupThree(before, [T_STRUCT] + PutI16(0), PersonBytes(p), [T_STOP]);
  }

  lemma RegroupThree(a: Bytes, b: Bytes, c: Bytes, d: Bytes)
    ensures a + b + c + d == a + ((b + c) + d)
  {
  }

  /** `PersonService_getPerson_result::write` */
  method WriteResult(oprot: Stream, success: Person, isset: bool) returns (r: Result<nat>)
    modifies oprot
    ensures !isset ==> r == Ok(1) && oprot.bytes == old(oprot.bytes) + [T_STOP]
    ensures isset && |success.name| >= SIZE_LIMIT ==>
              r == Err(SizeLimit) && oprot.bytes == old(oprot.bytes) + CutResult(success.View())
    ensures isset && |success.name| < SIZE_LIMIT ==>
              && r == Ok(|ResultBytes(success.View())|)
              && oprot.bytes == old(oprot.bytes) + ResultBytes(success.View())
  {
    var xfer, size: nat := 0, 0;
    if isset {
      size := oprot.WriteFieldBegin(T_STRUCT, 0);
      xfer := AddSmall(xfer, size);
      size :- success.Write(oprot);
      ResultParts(success.View(), old(oprot.bytes));
      xfer := AddSmall(xfer, size);
    }
    size := oprot.WriteFieldStop();
    xfer := AddSmall(xfer, size);
    r := Ok(xfer);
  }

  lemma StructRead(s: Bytes)
    ensures GetValue(T_STRUCT, s) ==
            match GetFields(s) case Done(fs, rest) => Done(Struct(fs), rest) case Failed(e) => Failed(e)
  {
  }

  lemma StructReading(s: Bytes)
    ensures GetValue(T_STRUCT, s) == match ReadFields(s)
                                     case Complete(fs, rest) => Done(Struct(fs), rest)
                                     case Aborted(_, e) => Failed(e)
  {
    StructRead(s);
    ReadingIsParsing(s);
  }

  /** `PersonService_getPerson_presult`: `success` is the Person the client's caller passed in. */
  class GetPersonPresult {
    const success: Person
    var isset: bool

    ghost function View(): ResultView
      reads this, success
    {
      ResultView(success.View(), isset)
    }

    constructor (success: Person)
      ensures this.success == success && !isset
    {
      this.success := success;
      isset := false;
    }

    /** The `switch` of `read`: one field, whose header was read.  The size of a Person comes wrapped. */
    method ReadFieldBody(header: FieldHeader, iprot: Stream) returns (r: Result<nat>)
      modifies this, success, iprot
      ensures match GetValue(header.ttype, old(iprot.bytes))
              case Done(v, rest) =>
                && r.Ok? && Wrap(r.value) == Count(old(iprot.bytes), rest)
                && iprot.bytes == rest && View() == ResultField(old(View()), Field(header.id, v))
              case Failed(e) =>
                && r == Err(e)
                && SameResult(View(), BodySoFar(old(View()), header.ttype, header.id, old(iprot.bytes)))
    {
      if header.id == 0 && header.ttype == T_STRUCT {
        StructReading(iprot.bytes);
        var size :- success.Read(iprot);
        isset := true;
        WrapSum(|old(iprot.bytes)| - |iprot.bytes|, 0);
        r := Ok(size);
      } else {
        TypedRead(header.ttype, iprot.bytes);
        r := iprot.Skip(header.ttype);
      }
    }

    /** One turn of the loop of `read`. */
    method ReadTurn(iprot: Stream) returns (r: Result<TurnTaken>)
      modifies this, success, iprot
      ensures match TakeTurn(old(iprot.bytes))
              case Stop(q) =>
                && r.Ok? && r.value.stop && Wrap(r.value.size) == Count(old(iprot.bytes), q)
                && iprot.bytes == q && View() == old(View())
              case Bad(e) => r == Err(e) && SameResult(View(), TurnSoFar(old(View()), old(iprot.bytes)))
              case Next(f, q) =>
                && r.Ok? && !r.value.stop && Wrap(r.value.size) == Count(old(iprot.bytes), q)
                && iprot.bytes == q && View() == ResultField(old(View()), f)
    {
      var header :- iprot.ReadFieldBegin();
      if header.ttype == T_STOP {
        return Ok(TurnTaken(true, header.size));
      }
      ghost var body := iprot.bytes;
      var size :- ReadFieldBody(header, iprot);
      CountFrom(old(iprot.bytes), body, iprot.bytes, header.size, size);
      return Ok(TurnTaken(false, header.size + size));
    }

    method Read(iprot: Stream) returns (r: Result<nat>)
      modifies this, success, iprot
      ensures match ReadFields(old(iprot.bytes))
              case Complete(fs, rest) =>
                && r == Ok(Count(old(iprot.bytes), rest))
                && iprot.bytes == rest && View() == ResultFields(old(View()), fs)
              case Aborted(_, e) => r == Err(e) && SameResult(View(), ResultSoFar(old(View()), old(iprot.bytes)))
    {
      var xfer: nat := 0;
      ghost var start, whole, before := iprot.bytes, ReadFields(iprot.bytes), View();
      ghost var soFar := ResultSoFar(before, start);
      ghost var done: seq<Field> := [];
      PrependNothing(whole);
      var stop := false;
      while !stop
        invariant |iprot.bytes| <= |start| && xfer == Count(start, iprot.bytes)
        invariant if stop then whole == Complete(done, iprot.bytes) else whole == Prepend(done, ReadFields(iprot.bytes))
        invariant View() == ResultFields(before, done) && (!stop ==> soFar == ResultSoFar(View(), iprot.bytes))
        decreases !stop, |iprot.bytes|
      {
        ghost var s, next := iprot.bytes, TakeTurn(iprot.bytes);
        OneTurn(whole, done, iprot.bytes);
        OneResultTurn(View(), s);
        var turn :- ReadTurn(iprot);
        xfer := AddWrapped(xfer, turn.size, start, s, iprot.bytes);
        stop := turn.stop;
        if !stop {
          FoldStep(ResultField, before, done, next.field);
          done := done + [next.field];
        }
      }
      return Ok(xfer);
    }
  }

  /** The bytes of a header and of what is behind it. */
  lemma CountFrom(start: Bytes, body: Bytes, rest: Bytes, header: nat, size: nat)
    requires |rest| <= |body| <= |start| && header == |start| - |body| && Wrap(size) == Count(body, rest)
    ensures Wrap(header + size) == Count(start, rest)
  {
    WrapSum(|body| - |rest|, header);
    WrapSum(size, header);
  }

  /** `xfer += size`, when the size itself has been counted in 32 bits. */
  method AddWrapped(xfer: nat, size: nat, ghost start: Bytes, ghost s: Bytes, ghost t: Bytes) returns (sum: nat)
    requires |t| <= |s| <= |start| && xfer == Count(start, s) && Wrap(size) == Count(s, t)
    ensures sum == Count(start, t)
  {
    WrapSum(|start| - |s|, size);
    WrapSum(size, |start| - |s|);
    WrapSum(|s| - |t|, |start| - |s|);
    sum := Wrap(xfer + size);
  }

  /** The reply of `process_getPerson` when the handler has filled the result's Person with the values in p. */
  method WritePersonReply(oprot: Stream, seqid: Int32, p: PersonView) returns (r: Result<()>)
    modifies oprot
    ensures if |p.name| < SIZE_LIMIT
            then r == Ok(()) && oprot.bytes ==
                 old(oprot.bytes) + (PutMessageBegin(Header(GET_PERSON, T_REPLY, seqid)) + ResultBytes(p))
            else r == Err(SizeLimit) && oprot.bytes ==
                 old(oprot.bytes) + (PutMessageBegin(Header(GET_PERSON, T_REPLY, seqid)) + CutResult(p))
  {
    var success := new Person.From(p);
    var _ := WriteMessageBegin(oprot, Header(GET_PERSON, T_REPLY, seqid));
    var _ :- WriteResult(oprot, success, true);
    r := Ok(());
  }

  // ---------------------------------------------------------------- the processor

  /** PersonServiceProcessor, with the handler's behaviour in its k-th call given by `handler`. */
  class Processor {
    const handler: Handler
    var calls: nat

    constructor (handler: Handler)
      ensures this.handler == handler && calls == 0
    {
      this.handler := handler;
      calls := 0;
    }

    /** TDispatchProcessor::process, with `dispatchCall`; false means that the message was no call. */
    method Process(iprot: Stream, oprot: Stream) returns (r: Result<bool>)
      requires iprot != oprot
      modifies this, iprot, oprot
      ensures match Serve(handler, old(calls), old(iprot.bytes))
              case Replied(reply, rest, invoked) =>
                && r == Ok(true) && iprot.bytes == rest && oprot.bytes == old(oprot.bytes) + reply
                && calls == old(calls) + (if invoked then 1 else 0)
              case NotACall(rest) =>
                r == Ok(false) && iprot.bytes == rest && oprot.bytes == old(oprot.bytes) && calls == old(calls)
              case Cut(sent, rest, invoked) =>
                && r == Err(SizeLimit) && iprot.bytes == rest && oprot.bytes == old(oprot.bytes) + sent
                && calls == old(calls) + (if invoked then 1 else 0)
              case Broke(e) => r == Err(e) && oprot.bytes == old(oprot.bytes) && calls == old(calls)
    {
      var h :- ReadMessageBegin(iprot);
      if h.mtype != T_CALL && h.mtype != T_ONEWAY {
        return Ok(false);
      }
      if h.name == PING {
        var _ :- ProcessPing(h.seqid, iprot, oprot);
      } else if h.name == GET_PERSON {
        var _ :- ProcessGetPerson(h.seqid, iprot, oprot);
      } else {
        StructRead(iprot.bytes);
        var _ :- iprot.Skip(T_STRUCT);
        var _ :- WriteExceptionReply(oprot, h.name, h.seqid, InvalidMethod(h.name));
      }
      return Ok(true);
    }

    method ProcessPing(seqid: Int32, iprot: Stream, oprot: Stream) returns (r: Result<()>)
      requires iprot != oprot
      modifies this, iprot, oprot
      ensures match GetFields(old(iprot.bytes))
              case Failed(e) => r == Err(e) && oprot.bytes == old(oprot.bytes) && calls == old(calls)
              case Done(_, rest) =>
                && iprot.bytes == rest && calls == old(calls) + 1
                && if Sendable(handler, old(calls), Ping) then
                     && r == Ok(())
                     && oprot.bytes == old(oprot.bytes) + ReplyBytes(handler, old(calls), Ping, seqid)
                   else
                     && r == Err(SizeLimit)
                     && oprot.bytes == old(oprot.bytes) + CutReply(handler, old(calls), Ping, seqid)
    {
      ReadingIsParsing(iprot.bytes);
      var _ :- ReadNoFields(iprot);
      var answer := handler.ping(calls);
      calls := calls + 1;
      match answer {
        case Throws(what) =>
          r := WriteExceptionReply(oprot, PING, seqid, AppException(what, UNKNOWN));
        case Returns(_) =>
          var _ := WriteMessageBegin(oprot, Header(PING, T_REPLY, seqid));
          var _ := oprot.WriteFieldStop();
          r := Ok(());
      }
    }

    method ProcessGetPerson(seqid: Int32, iprot: Stream, oprot: Stream) returns (r: Result<()>)
      requires iprot != oprot
      modifies this, iprot, oprot
      ensures match GetFields(old(iprot.bytes))
              case Failed(e) => r == Err(e) && oprot.bytes == old(oprot.bytes) && calls == old(calls)
              case Done(fs, rest) =>
                var c := GetPerson(ArgsFields(NO_ARGS, fs).id);
                && iprot.bytes == rest && calls == old(calls) + 1
                && if Sendable(handler, old(calls), c) then
                     r == Ok(()) && oprot.bytes == old(oprot.bytes) + ReplyBytes(handler, old(calls), c, seqid)
                   else
                     r == Err(SizeLimit) && oprot.bytes == old(oprot.bytes) + CutReply(handler, old(calls), c, seqid)
    {
      ReadingIsParsing(iprot.bytes);
      var args := new GetPersonArgs();
      var _ :- args.Read(iprot);
      var answer := handler.getPerson(calls, args.id);
      calls := calls + 1;
      match answer {
        case Throws(what) =>
          r := WriteExceptionReply(oprot, GET_PERSON, seqid, AppException(what, UNKNOWN));
        case Returns(p) =>
          r := WritePersonReply(oprot, seqid, p);
      }
    }
  }

  // ---------------------------------------------------------------- the client

  /** "getPerson failed: unknown result" */
  const UNKNOWN_RESULT: Bytes :=
    [103, 101, 116, 80, 101, 114, 115, 111, 110, 32, 102, 97, 105, 108, 101, 100, 58, 32,
     117, 110, 107, 110, 111, 119, 110, 32, 114, 101, 115, 117, 108, 116]

  /** How a client call ends: it returns, throws a TApplicationException, or the protocol throws. */
  datatype Outcome = Fine | Threw(exception: AppException) | Broken(error: Error)

  class Client {
    const iprot: Stream
    const oprot: Stream

    constructor (iprot: Stream, oprot: Stream)
      ensures this.iprot == iprot && this.oprot == oprot
    {
      this.iprot, this.oprot := iprot, oprot;
    }

    method SendPing()
      modifies oprot
      ensures oprot.bytes == old(oprot.bytes) + RequestBytes(Ping, 0)
    {
      var _ := WriteMessageBegin(oprot, Header(PING, T_CALL, 0));
      var _ := oprot.WriteFieldStop();
    }

    method SendGetPerson(id: Int32)
      modifies oprot
      ensures oprot.bytes == old(oprot.bytes) + RequestBytes(GetPerson(id), 0)
    {
      var _ := WriteMessageBegin(oprot, Header(GET_PERSON, T_CALL, 0));
      var _ := WriteArgs(oprot, id);
    }

    /** What both `recv_` methods do before they read the result: true if there is one to read. */
    method ReceiveHeader(name: Bytes) returns (hasResult: bool, r: Outcome)
      modifies iprot
      ensures match Announce(name, old(iprot.bytes))
              case ResultAt(rest) => hasResult && iprot.bytes == rest
              case ExceptionIs(x, rest) => !hasResult && r == Threw(x) && iprot.bytes == rest
              case Unreadable(e) => !hasResult && r == Broken(e)
    {
      hasResult, r := false, Fine;
      var begin := ReadMessageBegin(iprot);
      if begin.Err? {
        r := Broken(begin.error);
        return;
      }
      var h := begin.value;
      if h.mtype == T_EXCEPTION {
        var x := ReadException(iprot);
        r := if x.Ok? then Threw(x.value) else Broken(x.error);
        return;
      }
      if h.mtype != T_REPLY {
        var skipped := iprot.Skip(T_STRUCT);
        if skipped.Err? {
          r := Broken(skipped.error);
          return;
        }
      }
      if h.name != name {
        var skipped := iprot.Skip(T_STRUCT);
        if skipped.Err? {
          r := Broken(skipped.error);
          return;
        }
      }
      hasResult := true;
    }

    method RecvPing() returns (r: Outcome)
      modifies iprot
      ensures forall before: ResultView ::
                match Receive(PING, old(iprot.bytes), before)
                case Thrown(x, rest) => r == Threw(x) && iprot.bytes == rest
                case Returned(_, rest) => r == Fine && iprot.bytes == rest
                case Garbled(e) => r == Broken(e)
    {
      var hasResult;
      hasResult, r := ReceiveHeader(PING);
      if hasResult {
        ReadingIsParsing(iprot.bytes);
        var result := ReadNoFields(iprot);
        r := if result.Ok? then Fine else Broken(result.error);
      }
    }

    /**
     The Person is the caller's; it is filled from the reply, as far as the reply can be read, or left alone when an
     exception arrives.
     */
    method RecvGetPerson(person: Person) returns (r: Outcome)
      modifies iprot, person
      ensures match Receive(GET_PERSON, old(iprot.bytes), ResultView(old(person.View()), false))
              case Thrown(x, rest) => r == Threw(x) && iprot.bytes == rest && person.View() == old(person.View())
              case Returned(view, rest) =>
                && iprot.bytes == rest && person.View() == view.success
                && r == (if view.isset then Fine else Threw(AppException(UNKNOWN_RESULT, MISSING_RESULT)))
              case Garbled(e) =>
                && r == Broken(e)
                && SameButName(person.View(), ReceivedSoFar(GET_PERSON, old(iprot.bytes),
                                                            ResultView(old(person.View()), false)).success)
    {
      var hasResult;
      hasResult, r := ReceiveHeader(GET_PERSON);
      if hasResult {
        ReadingIsParsing(iprot.bytes);
        var result := new GetPersonPresult(person);
        var read := result.Read(iprot);
        r := if read.Err? then Broken(read.error)
             else if result.isset then Fine
             else Threw(AppException(UNKNOWN_RESULT, MISSING_RESULT));
      }
    }
  }

  // ---------------------------------------------------------------- sessions

  /**
   Any sequence of calls through the stubs: the k-th call shows the handler's k-th answer, even though one Person
   object is used for all of them, and both streams are empty again after every call.
   */
  method RunSession(handler: Handler, calls: seq<Call>, person: Person)
    returns (seen: seq<Seen>, toServer: Stream, toClient: Stream)
    requires forall k :: 0 <= k < |calls| ==> Sendable(handler, k, calls[k])
    modifies person
    ensures |seen| == |calls| && forall k :: 0 <= k < |calls| ==> seen[k] == Answered(handler, k, calls[k])
    ensures toServer.bytes == [] && toClient.bytes == []
  {
    toServer := new Stream();
    toClient := new Stream();
    var client := new Client(toClient, toServer);
    var processor := new Processor(handler);
    seen := [];
    for k := 0 to |calls|
      invariant toServer.bytes == [] && toClient.bytes == []
      invariant processor.calls == k == |seen| && forall i :: 0 <= i < k ==> seen[i] == Answered(handler, i, calls[i])
    {
      var one := RunCall(client, processor, calls[k], person);
      seen := seen + [one];
    }
  }

  /** A call of `ping`, with the server's turn in the middle. */
  method RunPing(client: Client, processor: Processor) returns (seen: Seen)
    requires client.iprot != client.oprot && client.iprot.bytes == [] && client.oprot.bytes == []
    requires Sendable(processor.handler, processor.calls, Ping)
    modifies client.iprot, client.oprot, processor
    ensures client.iprot.bytes == [] && client.oprot.bytes == []
    ensures processor.calls == old(processor.calls) + 1
    ensures seen == Answered(processor.handler, old(processor.calls), Ping)
  {
    ghost var handler, k := processor.handler, processor.calls;
    client.SendPing();
    ServeOne(client, processor, Ping);
    ReceivesAnswer(handler, k, Ping, 0, ResultView(NEW_PERSON, false), []);
    var r := client.RecvPing();
    assert match Receive(PING, ReplyBytes(handler, k, Ping, 0) + [], ResultView(NEW_PERSON, false))
           case Thrown(x, _) => r == Threw(x) case Returned(_, _) => r == Fine case Garbled(e) => r == Broken(e);
    seen := if r.Threw? then Raised(r.exception) else Pinged;
  }

  /** A call of `getPerson`. */
  method RunGetPerson(client: Client, processor: Processor, id: Int32, person: Person) returns (seen: Seen)
    requires client.iprot != client.oprot && client.iprot.bytes == [] && client.oprot.bytes == []
    requires Sendable(processor.handler, processor.calls, GetPerson(id))
    modifies client.iprot, client.oprot, processor, person
    ensures client.iprot.bytes == [] && client.oprot.bytes == []
    ensures processor.calls == old(processor.calls) + 1
    ensures seen == Answered(processor.handler, old(processor.calls), GetPerson(id))
  {
    ghost var handler, k, c := processor.handler, processor.calls, GetPerson(id);
    ghost var before := ResultView(person.View(), false);
    client.SendGetPerson(id);
    ServeOne(client, processor, c);
    ReceivesAnswer(handler, k, c, 0, before, []);
    var r := client.RecvGetPerson(person);
    seen := if r.Threw? then Raised(r.exception)
            else Got(PersonView(person.id, person.name, person.age,
                                person.issetId, person.issetName, person.issetAge));
  }

  /** The server's turn: the request that was sent is taken off one stream, its reply is put on the other. */
  method ServeOne(client: Client, processor: Processor, ghost c: Call)
    requires client.iprot != client.oprot && client.iprot.bytes == [] && client.oprot.bytes == [] + RequestBytes(c, 0)
    requires Sendable(processor.handler, processor.calls, c)
    modifies client.iprot, client.oprot, processor
    ensures client.oprot.bytes == [] && processor.calls == old(processor.calls) + 1
    ensures client.iprot.bytes == ReplyBytes(processor.handler, old(processor.calls), c, 0) + []
  {
    ServesRequest(processor.handler, processor.calls, c, 0, []);
    assert [] + RequestBytes(c, 0) == RequestBytes(c, 0) + [];
    var served := processor.Process(client.oprot, client.iprot);
  }

  /** One call. */
  method RunCall(client: Client, processor: Processor, c: Call, person: Person) returns (seen: Seen)
    requires client.iprot != client.oprot && client.iprot.bytes == [] && client.oprot.bytes == []
    requires Sendable(processor.handler, processor.calls, c)
    modifies client.iprot, client.oprot, processor, person
    ensures client.iprot.bytes == [] && client.oprot.bytes == []
    ensures processor.calls == old(processor.calls) + 1
    ensures seen == Answered(processor.handler, old(processor.calls), c)
  {
    match c
    case Ping => seen := RunPing(client, processor);
    case GetPerson(id) => seen := RunGetPerson(client, processor, id, person);
  }
}

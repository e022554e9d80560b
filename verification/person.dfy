/** What reading the fields of a struct, in the order they arrive, leaves in the object: the specification. */
module Folding {
  import opened Wire

  /** What the fields of a struct make of an object, one after the other. */
  function Fold<S>(step: (S, Field) -> S, s: S, fs: seq<Field>): S {
    if fs == [] then s else step(Fold(step, s, fs[..|fs| - 1]), fs[|fs| - 1])
  }

  lemma FoldStep<S>(step: (S, Field) -> S, s: S, fs: seq<Field>, f: Field)
    ensures Fold(step, s, fs + [f]) == step(Fold(step, s, fs), f)
  {
    assert (fs + [f])[..|fs + [f]| - 1] == fs;
  }

  lemma {:induction false} FoldConcat<S>(step: (S, Field) -> S, s: S, a: seq<Field>, b: seq<Field>)
    ensures Fold(step, s, a + b) == Fold(step, Fold(step, s, a), b)
  {
    if b == [] {
      assert a + b == a;
    } else {
      var init, last := b[..|b| - 1], b[|b| - 1];
      FoldConcat(step, s, a, init);
      assert a + b == (a + init) + [last] && b == init + [last];
      FoldStep(step, s, a + init, last);
    }
  }

  /** A Person with its isset flags. */
  datatype PersonView = PersonView(
    id: Int32, name: Bytes, age: Int32, issetId: bool, issetName: bool, issetAge: bool)

  const NEW_PERSON: PersonView := PersonView(0, [], 0, false, false, false)

  /** A field with a known id and the right type is assigned; everything else is skipped. */
  function PersonField(p: PersonView, f: Field): PersonView {
    if f.id == 1 && f.value.I32? then p.(id := f.value.n, issetId := true)
    else if f.id == 2 && f.value.Str? then p.(name := f.value.bytes, issetName := true)
    else if f.id == 3 && f.value.I32? then p.(age := f.value.n, issetAge := true)
    else p
  }

  function PersonFields(p: PersonView, fs: seq<Field>): PersonView {
    Fold(PersonField, p, fs)
  }

  /** The fields `write` sends, in its order. */
  function FieldsOfPerson(p: PersonView): seq<Field> {
    [Field(1, I32(p.id)), Field(2, Str(p.name)), Field(3, I32(p.age))]
  }

  // ---------------------------------------------------------------- what the fold means

  predicate Matches(f: Field, id: Int16, t: Byte) {
    f.id == id && TypeOf(f.value) == t
  }

  /** The last field with this id and type, or -1. */
  function LastMatch(fs: seq<Field>, id: Int16, t: Byte): (k: int)
    ensures -1 <= k < |fs|
    ensures k >= 0 ==> Matches(fs[k], id, t)
    ensures forall i :: k < i < |fs| ==> !Matches(fs[i], id, t)
  {
    if fs == [] then -1
    else if Matches(fs[|fs| - 1], id, t) then |fs| - 1
    else LastMatch(fs[..|fs| - 1], id, t)
  }

  lemma LastMatchStep(fs: seq<Field>, f: Field, id: Int16, t: Byte)
    ensures LastMatch(fs + [f], id, t) == if Matches(f, id, t) then |fs| else LastMatch(fs, id, t)
  {
    assert (fs + [f])[..|fs + [f]| - 1] == fs;
  }

  /** The type byte tells an i32 and a string from everything else. */
  predicate Typed(fs: seq<Field>) {
    forall i :: 0 <= i < |fs| ==> TypeTells(fs[i].value)
  }

  predicate TypeTells(v: Value) {
    (TypeOf(v) == T_I32 <==> v.I32?) && (TypeOf(v) == T_STRING <==> v.Str?)
  }

  lemma WellFormedTells(v: Value)
    requires WellFormed(v)
    ensures TypeTells(v)
  {
  }

  lemma {:induction false} WellFormedTyped(fs: seq<Field>)
    requires FieldsWellFormed(fs)
    ensures Typed(fs)
  {
    if fs != [] {
      WellFormedTyped(fs[1..]);
      WellFormedTells(fs[0].value);
      forall i | 0 <= i < |fs| ensures TypeTells(fs[i].value) {
        assert i > 0 ==> fs[i] == fs[1..][i - 1];
      }
    }
  }

  lemma {:induction false} IdLast(p: PersonView, fs: seq<Field>)
    requires Typed(fs)
    ensures var r, k := PersonFields(p, fs), LastMatch(fs, 1, T_I32);
            && r.issetId == (p.issetId || k >= 0)
            && (if k >= 0 then fs[k].value == I32(r.id) else r.id == p.id)
  {
    if fs != [] {
      var init, f := fs[..|fs| - 1], fs[|fs| - 1];
      assert fs == init + [f] && TypeTells(f.value);
      IdLast(p, init);
      LastMatchStep(init, f, 1, T_I32);
      FoldStep(PersonField, p, init, f);
    }
  }

  lemma {:induction false} NameLast(p: PersonView, fs: seq<Field>)
    requires Typed(fs)
    ensures var r, k := PersonFields(p, fs), LastMatch(fs, 2, T_STRING);
            && r.issetName == (p.issetName || k >= 0)
            && (if k >= 0 then fs[k].value == Str(r.name) else r.name == p.name)
  {
    if fs != [] {
      var init, f := fs[..|fs| - 1], fs[|fs| - 1];
      assert fs == init + [f] && TypeTells(f.value);
      NameLast(p, init);
      LastMatchStep(init, f, 2, T_STRING);
      FoldStep(PersonField, p, init, f);
    }
  }

  lemma {:induction false} AgeLast(p: PersonView, fs: seq<Field>)
    requires Typed(fs)
    ensures var r, k := PersonFields(p, fs), LastMatch(fs, 3, T_I32);
            && r.issetAge == (p.issetAge || k >= 0)
            && (if k >= 0 then fs[k].value == I32(r.age) else r.age == p.age)
  {
    if fs != [] {
      var init, f := fs[..|fs| - 1], fs[|fs| - 1];
      assert fs == init + [f] && TypeTells(f.value);
      AgeLast(p, init);
      LastMatchStep(init, f, 3, T_I32);
      FoldStep(PersonField, p, init, f);
    }
  }

  /** Each field ends up with its last correctly typed value, or is left alone; the flags say which. */
  lemma PersonFieldsLast(p: PersonView, fs: seq<Field>)
    requires FieldsWellFormed(fs)
    ensures var r := PersonFields(p, fs);
            var i, n, a := LastMatch(fs, 1, T_I32), LastMatch(fs, 2, T_STRING), LastMatch(fs, 3, T_I32);
            && r.issetId == (p.issetId || i >= 0) && r.issetName == (p.issetName || n >= 0)
            && r.issetAge == (p.issetAge || a >= 0)
            && (if i >= 0 then fs[i].value == I32(r.id) else r.id == p.id)
            && (if n >= 0 then fs[n].value == Str(r.name) else r.name == p.name)
            && (if a >= 0 then fs[a].value == I32(r.age) else r.age == p.age)
  {
    WellFormedTyped(fs);
    IdLast(p, fs);
    NameLast(p, fs);
    AgeLast(p, fs);
  }

  /** Reading back what a Person writes gives its three values and sets all flags, whatever was there before. */
  lemma FieldsOfPersonRead(p: PersonView, before: PersonView)
    ensures PersonFields(before, FieldsOfPerson(p)) == PersonView(p.id, p.name, p.age, true, true, true)
  {
    var f1, f2, f3 := Field(1, I32(p.id)), Field(2, Str(p.name)), Field(3, I32(p.age));
    assert FieldsOfPerson(p) == (([] + [f1]) + [f2]) + [f3];
    FoldStep(PersonField, before, [], f1);
    FoldStep(PersonField, before, [] + [f1], f2);
    FoldStep(PersonField, before, ([] + [f1]) + [f2], f3);
  }

  lemma FieldsOfPersonWellFormed(p: PersonView)
    requires |p.name| < SIZE_LIMIT
    ensures FieldsWellFormed(FieldsOfPerson(p))
  {
    ThreeFields(Field(1, I32(p.id)), Field(2, Str(p.name)), Field(3, I32(p.age)));
  }

  /** The encoding of a Person. */
  function PersonBytes(p: PersonView): Bytes
    requires |p.name| < SIZE_LIMIT
  {
    FieldsOfPersonWellFormed(p);
    PutFields(FieldsOfPerson(p))
  }

  /** What gets out of a Person whose name does not fit. */
  function CutPerson(p: PersonView): Bytes {
    PutField(Field(1, I32(p.id))) + ([T_STRING] + PutI16(2))
  }

  lemma ConsFields(f: Field, rest: seq<Field>)
    requires FieldWellFormed(f) && FieldsWellFormed(rest)
    ensures FieldsWellFormed([f] + rest) && PutFields([f] + rest) == PutField(f) + PutFields(rest)
  {
    assert ([f] + rest)[1..] == rest;
  }

  /** The bytes of a struct of three fields. */
  lemma ThreeFields(f1: Field, f2: Field, f3: Field)
    requires FieldWellFormed(f1) && FieldWellFormed(f2) && FieldWellFormed(f3)
    ensures FieldsWellFormed([f1, f2, f3])
    ensures PutFields([f1, f2, f3]) == PutField(f1) + (PutField(f2) + (PutField(f3) + [T_STOP]))
  {
    ConsFields(f3, []);
    ConsFields(f2, [f3] + []);
    ConsFields(f1, [f2] + ([f3] + []));
    assert [f1, f2, f3] == [f1] + ([f2] + ([f3] + []));
  }

  // ---------------------------------------------------------------- reading turn by turn

  /** One turn of a read loop: the stop byte, an exception, or a field and what is behind it. */
  datatype Turn = Stop(rest: Bytes) | Bad(error: Error) | Next(field: Field, rest: Bytes)

  function TakeTurn(s: Bytes): (t: Turn)
    ensures !t.Bad? ==> |t.rest| < |s|
  {
    match GetFieldBegin(s)
    case Failed(e) => Bad(e)
    case Done(h, q) =>
      if h.0 == T_STOP then Stop(q)
      else match GetValue(h.0, q)
           case Failed(e) => Bad(e)
           case Done(v, rest) => Next(Field(h.1, v), rest)
  }

  /** The fields a read loop comes past, and where it ends: behind the stop byte, or in an exception. */
  datatype Reading = Complete(fields: seq<Field>, rest: Bytes) | Aborted(fields: seq<Field>, error: Error)

  function ReadFields(s: Bytes): (r: Reading)
    ensures r.Complete? ==> |r.rest| < |s|
    decreases |s|
  {
    match TakeTurn(s)
    case Stop(q) => Complete([], q)
    case Bad(e) => Aborted([], e)
    case Next(f, rest) => Prepend([f], ReadFields(rest))
  }

  /** The fields read so far, put before those still to come. */
  function Prepend(done: seq<Field>, r: Reading): Reading {
    r.(fields := done + r.fields)
  }

  /** Reading in a loop and parsing the entire struct are the same. */
  lemma {:induction false} ReadingIsParsing(s: Bytes)
    ensures GetFields(s) == match ReadFields(s)
                            case Complete(fs, rest) => Done(fs, rest)
                            case Aborted(_, e) => Failed(e)
    decreases |s|
  {
    if TakeTurn(s).Next? {
      ReadingIsParsing(TakeTurn(s).rest);
    }
  }

  /** The bytes of fields without a stop byte. */
  function Sent(fs: seq<Field>): Bytes
    requires FieldsWellFormed(fs)
  {
    if fs == [] then [] else PutField(fs[0]) + Sent(fs[1..])
  }

  lemma TakenField(s: Bytes)
    requires TakeTurn(s).Next?
    ensures var t := TakeTurn(s); FieldWellFormed(t.field) && s == PutField(t.field) + t.rest
  {
    FieldBeginExact(s);
    var h := GetFieldBegin(s);
    ValueExact(h.value.0, h.rest);
    var v := GetValue(h.value.0, h.rest);
    assert [h.value.0] + PutI16(h.value.1) + (Put(v.value) + v.rest) ==
           ([h.value.0] + PutI16(h.value.1) + Put(v.value)) + v.rest;
  }

  lemma SentCons(f: Field, fs: seq<Field>, s: Bytes, p: Bytes, rest: Bytes)
    requires FieldWellFormed(f) && FieldsWellFormed(fs) && s == PutField(f) + p && p == Sent(fs) + rest
    ensures FieldsWellFormed([f] + fs) && s == Sent([f] + fs) + rest
  {
    ConsFields(f, fs);
    assert ([f] + fs)[1..] == fs;
    assert PutField(f) + (Sent(fs) + rest) == (PutField(f) + Sent(fs)) + rest;
  }

  /** A reading that breaks off has come past the fields in front of the one that cannot be read. */
  lemma {:induction false} AbortedAfter(s: Bytes) returns (rest: Bytes)
    requires ReadFields(s).Aborted?
    ensures var r := ReadFields(s);
            FieldsWellFormed(r.fields) && s == Sent(r.fields) + rest && TakeTurn(rest) == Bad(r.error)
    decreases |s|
  {
    var t := TakeTurn(s);
    if t.Next? {
      rest := AbortedAfter(t.rest);
      TakenField(s);
      SentCons(t.field, ReadFields(t.rest).fields, s, t.rest, rest);
    } else {
      rest := s;
      assert s == [] + s;
    }
  }

  lemma PrependNothing(r: Reading)
    ensures Prepend([], r) == r
  {
    assert [] + r.fields == r.fields;
  }

  lemma PrependStep(done: seq<Field>, f: Field, r: Reading)
    ensures Prepend(done, Prepend([f], r)) == Prepend(done + [f], r)
  {
    assert done + ([f] + r.fields) == (done + [f]) + r.fields;
  }

  /** How a turn shows in the reading of the entire struct, `whole`, when its fields so far are `done`. */
  ghost predicate Continues(whole: Reading, done: seq<Field>, turn: Turn, next: Reading) {
    match turn
    case Stop(q) => whole == Complete(done, q)
    case Bad(e) => whole == Aborted(done, e)
    case Next(f, _) => whole == Prepend(done + [f], next)
  }

  lemma Resume(whole: Reading, done: seq<Field>, here: Reading, turn: Turn, next: Reading)
    requires whole == Prepend(done, here)
    requires match turn
             case Stop(q) => here == Complete([], q)
             case Bad(e) => here == Aborted([], e)
             case Next(f, _) => here == Prepend([f], next)
    ensures Continues(whole, done, turn, next)
  {
    assert done + [] == done;
    if turn.Next? {
      PrependStep(done, turn.field, next);
    }
  }

  /** What is still to come after a turn. */
  function Behind(turn: Turn): Reading {
    if turn.Next? then ReadFields(turn.rest) else Aborted([], EndOfInput)
  }

  /** One turn, with `done` read and `s` still to be read. */
  lemma OneTurn(whole: Reading, done: seq<Field>, s: Bytes)
    requires whole == Prepend(done, ReadFields(s))
    ensures Continues(whole, done, TakeTurn(s), Behind(TakeTurn(s)))
  {
    Resume(whole, done, ReadFields(s), TakeTurn(s), Behind(TakeTurn(s)));
  }

  /** Equal but for the name, which a string that breaks off may have overwritten. */
  predicate SameButName(p: PersonView, q: PersonView) {
    p.(name := q.name) == q
  }
}

/** The protocol object and example_types.cpp on top of it. */
module PersonCodec {
  import opened Arithmetic
  import opened Wire
  import opened Folding

  datatype Result<+T> = Ok(value: T) | Err(error: Error) {
    predicate IsFailure() { Err? }

    function PropagateFailure<U>(): Result<U>
      requires Err?
    {
      Err(error)
    }

    function Extract(): T
      requires Ok?
    {
      value
    }
  }

  datatype FieldHeader = FieldHeader(ttype: Byte, id: Int16, size: nat)

  /** Whether a turn of a read loop met the stop byte, and the bytes it took. */
  datatype TurnTaken = TurnTaken(stop: bool, size: nat)

  /** Where a read leaves the stream, and how many bytes it reports. */
  ghost predicate Took<T>(r: Result<T>, p: Parse<T>, bytes: Bytes) {
    match p
    case Done(v, rest) => r == Ok(v) && bytes == rest
    case Failed(e) => r == Err(e)
  }

  /**
   TBinaryProtocol over one direction of a connection: writers append to `bytes`, readers take from its front.
   What an exception leaves of the input is the transport's affair, so nothing is said about it.
   */
  class Stream {
    var bytes: Bytes

    constructor ()
      ensures bytes == []
    {
      bytes := [];
    }

    method ReadFieldBegin() returns (r: Result<FieldHeader>)
      modifies this
      ensures match GetFieldBegin(old(bytes))
              case Done(h, rest) => r == Ok(FieldHeader(h.0, h.1, |old(bytes)| - |rest|)) && bytes == rest
              case Failed(e) => r == Err(e)
    {
      match GetFieldBegin(bytes) {
        case Done(h, rest) =>
          r := Ok(FieldHeader(h.0, h.1, |bytes| - |rest|));
          bytes := rest;
        case Failed(e) =>
          r := Err(e);
      }
    }

    method ReadI32() returns (r: Result<Int32>)
      modifies this
      ensures Took(r, GetI32(old(bytes)), bytes)
    {
      match GetI32(bytes) {
        case Done(n, rest) =>
          r := Ok(n);
          bytes := rest;
        case Failed(e) =>
          r := Err(e);
      }
    }

    method ReadString() returns (r: Result<Bytes>)
      modifies this
      ensures Took(r, GetString(old(bytes)), bytes)
    {
      match GetString(bytes) {
        case Done(b, rest) =>
          r := Ok(b);
          bytes := rest;
        case Failed(e) =>
          r := Err(e);
      }
    }

    /** `skip`: reads a value of the given type and forgets it. */
    method Skip(t: Byte) returns (r: Result<nat>)
      modifies this
      ensures match GetValue(t, old(bytes))
              case Done(_, rest) => r == Ok(|old(bytes)| - |rest|) && bytes == rest
              case Failed(e) => r == Err(e)
    {
      match GetValue(t, bytes) {
        case Done(_, rest) =>
          r := Ok(|bytes| - |rest|);
          bytes := rest;
        case Failed(e) =>
          r := Err(e);
      }
    }

    method WriteFieldBegin(t: Byte, id: Int16) returns (size: nat)
      modifies this
      ensures bytes == old(bytes) + ([t] + PutI16(id)) && size == 3
    {
      bytes := bytes + ([t] + PutI16(id));
      size := 3;
    }

    method WriteI32(n: Int32) returns (size: nat)
      modifies this
      ensures bytes == old(bytes) + PutI32(n) && size == 4
    {
      bytes := bytes + PutI32(n);
      size := 4;
    }

    method WriteString(b: Bytes) returns (r: Result<nat>)
      modifies this
      ensures if |b| < SIZE_LIMIT then r == Ok(4 + |b|) && bytes == old(bytes) + PutString(b)
              else r == Err(SizeLimit) && bytes == old(bytes)
    {
      if |b| >= SIZE_LIMIT {
        return Err(SizeLimit);
      }
      bytes := bytes + PutString(b);
      r := Ok(4 + |b|);
    }

    /** `writeFieldBegin`, `writeI32`, `writeFieldEnd`. */
    method WriteI32Field(id: Int16, n: Int32) returns (size: nat)
      modifies this
      ensures bytes == old(bytes) + PutField(Field(id, I32(n))) && size == 7
    {
      var header := WriteFieldBegin(T_I32, id);
      size := WriteI32(n);
      size := header + size;
    }

    /** `writeFieldBegin`, `writeString`, `writeFieldEnd`. */
    method WriteStringField(id: Int16, b: Bytes) returns (r: Result<nat>)
      modifies this
      ensures if |b| < SIZE_LIMIT then r == Ok(7 + |b|) && bytes == old(bytes) + PutField(Field(id, Str(b)))
              else r == Err(SizeLimit) && bytes == old(bytes) + ([T_STRING] + PutI16(id))
    {
      var header := WriteFieldBegin(T_STRING, id);
      var size :- WriteString(b);
      r := Ok(header + size);
    }

    method WriteFieldStop() returns (size: nat)
      modifies this
      ensures bytes == old(bytes) + [T_STOP] && size == 1
    {
      bytes := bytes + [T_STOP];
      size := 1;
    }
  }

  /** The byte count a read reports that has come from the one to the other. */
  function Count(before: Bytes, after: Bytes): nat
    requires |after| <= |before|
  {
    Wrap(|before| - |after|)
  }

  /** `xfer += size` on a `uint32_t` that has counted the bytes from `start` to `s`. */
  method Add(xfer: nat, size: nat, ghost start: Bytes, ghost s: Bytes, ghost t: Bytes) returns (sum: nat)
    requires |t| <= |s| <= |start| && xfer == Count(start, s) && size == |s| - |t|
    ensures sum == Count(start, t)
  {
    WrapSum(|start| - |s|, size);
    sum := Wrap(xfer + size);
  }

  /** The same for counts that stay below 2^32. */
  method AddSmall(xfer: nat, size: nat) returns (sum: nat)
    requires xfer + size < WORD
    ensures sum == xfer + size
  {
    sum := Wrap(xfer + size);
  }

  class Person {
    var id: Int32
    var name: Bytes
    var age: Int32
    var issetId: bool
    var issetName: bool
    var issetAge: bool

    ghost function View(): PersonView
      reads this
    {
      PersonView(id, name, age, issetId, issetName, issetAge)
    }

    constructor ()
      ensures View() == NEW_PERSON
    {
      id, name, age := 0, [], 0;
      issetId, issetName, issetAge := false, false, false;
    }

    /** A Person whose fields were set. */
    constructor From(p: PersonView)
      ensures View() == p
    {
      id, name, age := p.id, p.name, p.age;
      issetId, issetName, issetAge := p.issetId, p.issetName, p.issetAge;
    }

    /** The `switch` of `Person::read`: one field, whose header was read. */
    method ReadFieldBody(header: FieldHeader, iprot: Stream) returns (r: Result<nat>)
      modifies this, iprot
      ensures match GetValue(header.ttype, old(iprot.bytes))
              case Done(v, rest) =>
                && r == Ok(|old(iprot.bytes)| - |rest|) && iprot.bytes == rest
                && View() == PersonField(old(View()), Field(header.id, v))
              case Failed(e) => r == Err(e) && SameButName(View(), old(View()))
    {
      TypedRead(header.ttype, iprot.bytes);
      if header.id == 1 && header.ttype == T_I32 {
        id :- iprot.ReadI32();
        issetId := true;
        r := Ok(4);
      } else if header.id == 2 && header.ttype == T_STRING {
        name :- iprot.ReadString();
        issetName := true;
        r := Ok(4 + |name|);
      } else if header.id == 3 && header.ttype == T_I32 {
        age :- iprot.ReadI32();
        issetAge := true;
        r := Ok(4);
      } else {
        r := iprot.Skip(header.ttype);
      }
    }

    /** One turn of the loop of `Person::read`: whether it ends the loop, and the bytes it took. */
    method ReadTurn(iprot: Stream) returns (r: Result<TurnTaken>)
      modifies this, iprot
      ensures match TakeTurn(old(iprot.bytes))
              case Stop(q) =>
                && r == Ok(TurnTaken(true, |old(iprot.bytes)| - |q|))
                && iprot.bytes == q && View() == old(View())
              case Bad(e) => r == Err(e) && SameButName(View(), old(View()))
              case Next(f, q) =>
                && |q| < |old(iprot.bytes)| && r == Ok(TurnTaken(false, |old(iprot.bytes)| - |q|))
                && iprot.bytes == q && View() == PersonField(old(View()), f)
    {
      var header :- iprot.ReadFieldBegin();
      if header.ttype == T_STOP {
        return Ok(TurnTaken(true, header.size));
      }
      var size :- ReadFieldBody(header, iprot);
      return Ok(TurnTaken(false, header.size + size));
    }

    /**
     `Person::read`.  Reading succeeds on exactly the encodings of well-formed structs; see ReadsExactly.  Otherwise
     the fields in front of the one that cannot be read have been assigned, and the name may be spoilt.
     */
    method Read(iprot: Stream) returns (r: Result<nat>)
      modifies this, iprot
      ensures match ReadFields(old(iprot.bytes))
              case Complete(fs, rest) =>
                && r == Ok(Count(old(iprot.bytes), rest))
                && iprot.bytes == rest && View() == PersonFields(old(View()), fs)
              case Aborted(fs, e) => r == Err(e) && SameButName(View(), PersonFields(old(View()), fs))
    {
      var xfer: nat := 0;
      ghost var start, whole := iprot.bytes, ReadFields(iprot.bytes);
      ghost var done: seq<Field> := [];
      ghost var before := View();
      PrependNothing(whole);
      var stop := false;
      while !stop
        invariant |iprot.bytes| <= |start| && xfer == Count(start, iprot.bytes)
        invariant if stop then whole == Complete(done, iprot.bytes) else whole == Prepend(done, ReadFields(iprot.bytes))
        invariant View() == PersonFields(before, done)
        decreases !stop, |iprot.bytes|
      {
        ghost var s, next := iprot.bytes, TakeTurn(iprot.bytes);
        OneTurn(whole, done, iprot.bytes);
        var turn :- ReadTurn(iprot);
        xfer := Add(xfer, turn.size, start, s, iprot.bytes);
        stop := turn.stop;
        if !stop {
          FoldStep(PersonField, before, done, next.field);
          done := done + [next.field];
        }
      }
      return Ok(xfer);
    }

    /** `Person::write`; a name that does not fit breaks off behind the header of its field. */
    method Write(oprot: Stream) returns (r: Result<nat>)
      modifies oprot
      ensures |name| >= SIZE_LIMIT ==> r == Err(SizeLimit) && oprot.bytes == old(oprot.bytes) + CutPerson(View())
      ensures |name| < SIZE_LIMIT ==>
                r == Ok(|PersonBytes(View())|) && oprot.bytes == old(oprot.bytes) + PersonBytes(View())
    {
      var xfer: nat := 0;
      var size := oprot.WriteI32Field(1, id);
      xfer := AddSmall(xfer, size);
      size :- oprot.WriteStringField(2, name);
      xfer := AddSmall(xfer, size);
      size := oprot.WriteI32Field(3, age);
      xfer := AddSmall(xfer, size);
      size := oprot.WriteFieldStop();
      xfer := AddSmall(xfer, size);
      PersonParts(View(), old(oprot.bytes));
      PersonLength(View());
      return Ok(xfer);
    }
  }

  /** The bytes of a Person, field by field, behind what was there. */
  lemma PersonParts(p: PersonView, before: Bytes)
    requires |p.name| < SIZE_LIMIT
    ensures before + PutField(Field(1, I32(p.id))) + PutField(Field(2, Str(p.name))) + PutField(Field(3, I32(p.age)))
            + [T_STOP] == before + PersonBytes(p)
  {
    var f1, f2, f3 := Field(1, I32(p.id)), Field(2, Str(p.name)), Field(3, I32(p.age));
    ThreeFields(f1, f2, f3);
    RegroupFour(before, PutField(f1), PutField(f2), PutField(f3), [T_STOP]);
  }

  lemma RegroupFour(a: Bytes, b: Bytes, c: Bytes, d: Bytes, e: Bytes)
    ensures a + b + c + d + e == a + (b + (c + (d + e)))
  {
  }

  lemma PersonLength(p: PersonView)
    requires |p.name| < SIZE_LIMIT
    ensures |PersonBytes(p)| == 22 + |p.name| < WORD
  {
    ThreeFields(Field(1, I32(p.id)), Field(2, Str(p.name)), Field(3, I32(p.age)));
  }

  /** Reading a typed value and parsing a value of that type take the same bytes, and fail on the same ones. */
  lemma TypedRead(t: Byte, s: Bytes)
    ensures t == T_I32 ==>
              GetValue(t, s) == match GetI32(s) case Done(n, rest) => Done(I32(n), rest) case Failed(e) => Failed(e)
    ensures t == T_STRING ==>
              GetValue(t, s) == match GetString(s) case Done(b, rest) => Done(Str(b), rest) case Failed(e) => Failed(e)
    ensures GetString(s).Done? ==> |s| - |GetString(s).rest| == 4 + |GetString(s).value|
    ensures GetValue(t, s).Done? ==>
              var v := GetValue(t, s).value;
              (v.I32? <==> t == T_I32) && (v.Str? <==> t == T_STRING) && (v.Struct? <==> t == T_STRUCT)
  {
  }

  /** Writing and reading back, with anything behind it in the stream. */
  lemma PersonRoundTrip(p: PersonView, before: PersonView, tail: Bytes)
    requires |p.name| < SIZE_LIMIT
    ensures var s := PersonBytes(p);
            && ReadFields(s + tail) == Complete(FieldsOfPerson(p), tail)
            && PersonFields(before, FieldsOfPerson(p)) == PersonView(p.id, p.name, p.age, true, true, true)
            && |s + tail| - |tail| == |s|
  {
    FieldsOfPersonWellFormed(p);
    FieldsRoundTrip(FieldsOfPerson(p), tail);
    ReadingIsParsing(PersonBytes(p) + tail);
    FieldsOfPersonRead(p, before);
  }

  /** `read` accepts a byte string exactly when it starts with the encoding of some well-formed fields. */
  lemma ReadsExactly(s: Bytes)
    ensures GetFields(s).Done? <==>
            exists fs: seq<Field>, rest: Bytes :: FieldsWellFormed(fs) && s == PutFields(fs) + rest
    ensures forall fs: seq<Field>, rest: Bytes :: FieldsWellFormed(fs) && s == PutFields(fs) + rest ==>
              GetFields(s) == Done(fs, rest) && ReadFields(s) == Complete(fs, rest)
    ensures ReadFields(s).Complete? <==> GetFields(s).Done?
  {
    ReadingIsParsing(s);
    if GetFields(s).Done? {
      FieldsExact(s);
    }
    forall fs: seq<Field>, rest: Bytes | FieldsWellFormed(fs) && s == PutFields(fs) + rest
      ensures GetFields(s) == Done(fs, rest) && ReadFields(s) == Complete(fs, rest)
    {
      FieldsRoundTrip(fs, rest);
    }
  }

  /**
   Reading what a newer or older writer sent: fields in any order, repeated, of other ids or types, nested as deep as
   the library's recursion tracker, which is not modelled, lets them be.  Each of the three fields gets its last
   correctly typed value or keeps what it was, the flags tell which, and the stream is left right behind the struct.
   */
  lemma ForwardCompatible(fs: seq<Field>, tail: Bytes)
    requires FieldsWellFormed(fs)
    ensures ReadFields(PutFields(fs) + tail) == Complete(fs, tail)
    ensures var r := PersonFields(NEW_PERSON, fs);
            var i, n, a := LastMatch(fs, 1, T_I32), LastMatch(fs, 2, T_STRING), LastMatch(fs, 3, T_I32);
            && r.issetId == (i >= 0) && r.issetName == (n >= 0) && r.issetAge == (a >= 0)
            && (if i >= 0 then fs[i].value == I32(r.id) else r.id == 0)
            && (if n >= 0 then fs[n].value == Str(r.name) else r.name == [])
            && (if a >= 0 then fs[a].value == I32(r.age) else r.age == 0)
  {
    FieldsRoundTrip(fs, tail);
    ReadingIsParsing(PutFields(fs) + tail);
    PersonFieldsLast(NEW_PERSON, fs);
  }
}

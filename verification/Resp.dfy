/** The RESP2 codec of src/bridge/tpm_limiter.py: the command encoder, and the recursive reader over a
    socket that may hand out any non-empty chunk. Strings are represented by their UTF-8 bytes. */
module Resp {
  import opened Prelude
  import opened Text

  newtype byte = x: int | 0 <= x < 256

  type Bytes = seq<byte>

  const CR: byte := 13
  const LF: byte := 10
  const CRLF: Bytes := [CR, LF]
  const PLUS: byte := 43
  const MINUS: byte := 45
  const COLON: byte := 58
  const DOLLAR: byte := 36
  const STAR: byte := 42

  /** Bytes as the characters with the same codes, for `int(bytes)`. */
  function Latin(b: Bytes): (s: string)
    ensures |s| == |b|
  {
    seq(|b|, i requires 0 <= i < |b| => b[i] as int as char)
  }

  predicate IsAscii(s: string) {
    forall i :: 0 <= i < |s| ==> s[i] as int < 128
  }

  function Ascii(s: string): (b: Bytes)
    requires IsAscii(s)
    ensures |b| == |s| && Latin(b) == s
  {
    seq(|s|, i requires 0 <= i < |s| => s[i] as int as byte)
  }

  // ---- UTF-8, as accepted by bytes.decode("utf-8"): the table of section 4 of RFC 3629 ----

  predicate IsTail(b: byte) {
    0x80 <= b <= 0xBF
  }

  predicate Utf8Valid(b: Bytes) {
    if b == [] then true
    else if b[0] <= 0x7F then Utf8Valid(b[1..])
    else if 0xC2 <= b[0] <= 0xDF then |b| >= 2 && IsTail(b[1]) && Utf8Valid(b[2..])
    else if 0xE0 <= b[0] <= 0xEF then
      && |b| >= 3 && IsTail(b[1]) && IsTail(b[2])
      && (b[0] == 0xE0 ==> b[1] >= 0xA0) && (b[0] == 0xED ==> b[1] <= 0x9F)
      && Utf8Valid(b[3..])
    else if 0xF0 <= b[0] <= 0xF4 then
      && |b| >= 4 && IsTail(b[1]) && IsTail(b[2]) && IsTail(b[3])
      && (b[0] == 0xF0 ==> b[1] >= 0x90) && (b[0] == 0xF4 ==> b[1] <= 0x8F)
      && Utf8Valid(b[4..])
    else false
  }

  /** A Python string, by its UTF-8 encoding. */
  type Utf8 = b: Bytes | Utf8Valid(b) witness []

  // ---- What the reader returns ----

  datatype PyValue = Str(text: Utf8) | Int(n: int) | Null | List(items: seq<PyValue>)

  datatype ReadError =
    | ConnectionClosed
    | BadInteger
    | BadUtf8
    | ServerError(message: Utf8)
    | BadPrefix(prefix: byte)
    | NotAnArray

  /** A value read, and the bytes left on the stream after it. */
  datatype At<+T> = At(value: T, rest: Bytes)

  type Reading<+T> = Result<At<T>, ReadError>

  // ---- Reading as a function of the whole remaining stream ----

  predicate CrlfAt(s: Bytes, i: int) {
    0 <= i && i + 1 < |s| && s[i] == CR && s[i + 1] == LF
  }

  /** Position of the first CR LF. */
  function LineLength(s: Bytes): (r: Option<nat>)
    ensures r.Some? ==> CrlfAt(s, r.value) && forall i :: 0 <= i < r.value ==> !CrlfAt(s, i)
    ensures r.None? ==> forall i :: !CrlfAt(s, i)
  {
    if |s| < 2 then None
    else if CrlfAt(s, 0) then Some(0)
    else match LineLength(s[1..])
      case None =>
        assert forall i :: i > 0 && CrlfAt(s, i) ==> CrlfAt(s[1..], i - 1);
        None
      case Some(n) =>
        assert forall i :: i > 0 && CrlfAt(s, i) ==> CrlfAt(s[1..], i - 1);
        Some(n + 1)
  }

  predicate EndsWithCrlf(s: Bytes) {
    CrlfAt(s, |s| - 2)
  }

  lemma LineFound(s: Bytes, n: nat)
    requires CrlfAt(s, n) && forall i :: 0 <= i < n ==> !CrlfAt(s, i)
    ensures LineLength(s) == Some(n)
  {}

  function TakeLine(s: Bytes): (r: Reading<Bytes>)
    ensures r.Success? ==> |r.value.rest| < |s|
  {
    match LineLength(s)
    case None => Failure(ConnectionClosed)
    case Some(n) => Success(At(s[..n], s[n + 2..]))
  }

  function TakeExact(s: Bytes, length: nat): (r: Reading<Bytes>) {
    if length <= |s| then Success(At(s[..length], s[length..])) else Failure(ConnectionClosed)
  }

  /** No line has ended in `chunks`, but perhaps at its very end. */
  ghost predicate OneLineSoFar(chunks: Bytes) {
    forall i :: i + 2 < |chunks| ==> !CrlfAt(chunks, i)
  }

  lemma LineGoesOn(chunks: Bytes, next: Bytes)
    requires OneLineSoFar(chunks) && !EndsWithCrlf(chunks) && |next| == 1
    ensures OneLineSoFar(chunks + next)
  {
    var longer := chunks + next;
    forall i | i + 2 < |longer| ensures !CrlfAt(longer, i) {
      assert CrlfAt(longer, i) <==> CrlfAt(chunks, i);
    }
  }

  lemma NoLineYet()
    ensures OneLineSoFar([])
  {}

  lemma EndIsTwoBytes(chunks: Bytes)
    requires EndsWithCrlf(chunks)
    ensures |chunks| >= 2
  {}

  lemma LineNeverEnds(chunks: Bytes)
    requires OneLineSoFar(chunks) && !EndsWithCrlf(chunks)
    ensures TakeLine(chunks) == Failure(ConnectionClosed)
  {
    hide LineLength;
    assert forall i :: !CrlfAt(chunks, i);
  }

  lemma LineEnds(chunks: Bytes, rest: Bytes)
    requires OneLineSoFar(chunks) && EndsWithCrlf(chunks)
    ensures TakeLine(chunks + rest) == Success(At(chunks[..|chunks| - 2], rest))
  {
    hide LineLength;
    var s := chunks + rest;
    assert forall i :: i + 1 < |chunks| ==> (CrlfAt(s, i) <==> CrlfAt(chunks, i));
    LineFound(s, |chunks| - 2);
    assert s[..|chunks| - 2] == chunks[..|chunks| - 2] && s[|chunks|..] == rest;
  }

  function TakeInt(s: Bytes): (r: Reading<int>)
    ensures r.Success? ==> |r.value.rest| < |s|
  {
    match TakeLine(s)
    case Failure(e) => Failure(e)
    case Success(At(line, rest)) =>
      match PyInt(Latin(line))
      case None => Failure(BadInteger)
      case Some(n) => Success(At(n, rest))
  }

  function Decode(b: Bytes): Result<Utf8, ReadError> {
    if Utf8Valid(b) then Success(b) else Failure(BadUtf8)
  }

  /** One RESP value from the front of the stream. */
  function Read(s: Bytes): (r: Reading<PyValue>)
    ensures r.Success? ==> |r.value.rest| < |s|
    decreases |s|, 0
  {
    if s == [] then Failure(ConnectionClosed)
    else if s[0] == PLUS then
      match TakeLine(s[1..])
      case Failure(e) => Failure(e)
      case Success(At(line, rest)) =>
        (match Decode(line) case Failure(e) => Failure(e) case Success(t) => Success(At(Str(t), rest)))
    else if s[0] == COLON then
      match TakeInt(s[1..])
      case Failure(e) => Failure(e)
      case Success(At(n, rest)) => Success(At(Int(n), rest))
    else if s[0] == MINUS then
      match TakeLine(s[1..])
      case Failure(e) => Failure(e)
      case Success(At(line, _)) =>
        (match Decode(line) case Failure(e) => Failure(e) case Success(t) => Failure(ServerError(t)))
    else if s[0] == DOLLAR then
      match TakeInt(s[1..])
      case Failure(e) => Failure(e)
      case Success(At(n, rest)) =>
        if n < 0 then Success(At(Null, rest)) else ReadPayload(rest, n)
    else if s[0] == STAR then
      match TakeInt(s[1..])
      case Failure(e) => Failure(e)
      case Success(At(n, rest)) =>
        if n < 0 then Success(At(Null, rest))
        else
          (match ReadItems(rest, n)
           case Failure(e) => Failure(e)
           case Success(At(items, rest')) => Success(At(List(items), rest')))
    else Failure(BadPrefix(s[0]))
  }

  /** `length` payload bytes and two more, which the reader does not look at. */
  function ReadPayload(s: Bytes, length: nat): (r: Reading<PyValue>)
    ensures r.Success? ==> |r.value.rest| <= |s|
  {
    match TakeExact(s, length)
    case Failure(e) => Failure(e)
    case Success(At(payload, s1)) =>
      match TakeExact(s1, 2)
      case Failure(e) => Failure(e)
      case Success(At(_, rest)) =>
        match Decode(payload)
        case Failure(e) => Failure(e)
        case Success(t) => Success(At(Str(t), rest))
  }

  /** `r` as the continuation of having already read `done`. */
  function After(done: seq<PyValue>, r: Reading<seq<PyValue>>): Reading<seq<PyValue>> {
    match r
    case Failure(e) => Failure(e)
    case Success(At(vs, rest)) => Success(At(done + vs, rest))
  }

  lemma AfterNothing(r: Reading<seq<PyValue>>)
    ensures After([], r) == r
  {
    if r.Success? { assert [] + r.value.value == r.value.value; }
  }

  lemma AfterAfter(done: seq<PyValue>, v: PyValue, r: Reading<seq<PyValue>>)
    ensures After(done, After([v], r)) == After(done + [v], r)
  {
    if r.Success? { assert done + ([v] + r.value.value) == done + [v] + r.value.value; }
  }

  /** `count` values, one after the other. */
  function ReadItems(s: Bytes, count: nat): (r: Reading<seq<PyValue>>)
    ensures r.Success? ==> |r.value.rest| <= |s| && |r.value.value| == count
    decreases |s|, 1
  {
    if count == 0 then Success(At([], s))
    else
      match Read(s)
      case Failure(e) => Failure(e)
      case Success(At(v, s1)) =>
        After([v], ReadItems(s1, count - 1))
  }

  /** The reply to MULTI, one reply to each of `commandCount` queued commands, and the reply to EXEC. */
  function ReadTransaction(s: Bytes, commandCount: nat): Reading<seq<PyValue>> {
    match ReadItems(s, commandCount + 1)
    case Failure(e) => Failure(e)
    case Success(At(_, s1)) =>
      match Read(s1)
      case Failure(e) => Failure(e)
      case Success(At(v, rest)) => if v.List? then Success(At(v.items, rest)) else Failure(NotAnArray)
  }

  // ---- The socket and the reading loops ----

  /** A connection whose peer has written `pending` and then closed. */
  class Socket {
    var pending: Bytes

    constructor (stream: Bytes)
      ensures pending == stream
    {
      pending := stream;
    }

    /** `recv(limit)`: some non-empty chunk of at most `limit` bytes, or nothing at the end of the stream. */
    method Recv(limit: nat) returns (chunk: Bytes)
      requires limit > 0
      modifies this
      ensures old(pending) == chunk + pending
      ensures |chunk| <= limit
      ensures chunk == [] <==> old(pending) == []
    {
      if pending == [] {
        chunk := [];
      } else {
        var k: nat :| 1 <= k <= limit && k <= |pending|;
        chunk, pending := pending[..k], pending[k..];
      }
    }

    method ReadExact(length: nat) returns (r: Result<Bytes, ReadError>)
      modifies this
      ensures match TakeExact(old(pending), length)
              case Success(At(b, rest)) => r == Success(b) && pending == rest
              case Failure(e) => r == Failure(e)
    {
      var chunks: Bytes := [];
      while |chunks| < length
        invariant |chunks| <= length
        invariant old(pending) == chunks + pending
        decreases length - |chunks|
      {
        var chunk := Recv(length - |chunks|);
        if chunk == [] {
          return Failure(ConnectionClosed);
        }
        chunks := chunks + chunk;
      }
      r := Success(chunks);
    }

    method ReadLine() returns (r: Result<Bytes, ReadError>)
      modifies this
      ensures match TakeLine(old(pending))
              case Success(At(b, rest)) => r == Success(b) && pending == rest
              case Failure(e) => r == Failure(e)
    {
      hide TakeLine, EndsWithCrlf, OneLineSoFar;
      ghost var s := pending;
      var chunks: Bytes := [];
      assert OneLineSoFar([]) by { NoLineYet(); }
      while !EndsWithCrlf(chunks)
        invariant s == chunks + pending && OneLineSoFar(chunks)
        decreases |pending|
      {
        var next := ReadExact(1);
        if next.Failure? {
          assert s == chunks;
          LineNeverEnds(chunks);
          return Failure(next.error);
        }
        LineGoesOn(chunks, next.value);
        chunks := chunks + next.value;
      }
      LineEnds(chunks, pending);
      assert |chunks| >= 2 by { EndIsTwoBytes(chunks); }
      r := Success(chunks[..|chunks| - 2]);
    }

    method ReadInt() returns (r: Result<int, ReadError>)
      modifies this
      ensures match TakeInt(old(pending))
              case Success(At(n, rest)) => r == Success(n) && pending == rest
              case Failure(e) => r == Failure(e)
    {
      var line := ReadLine();
      if line.Failure? { return Failure(line.error); }
      var n := PyInt(Latin(line.value));
      r := if n.None? then Failure(BadInteger) else Success(n.value);
    }

    /** The recursive reader; it agrees with `Read` however the stream is cut into chunks. */
    method ReadResp() returns (r: Result<PyValue, ReadError>)
      modifies this
      ensures match Read(old(pending))
              case Success(At(v, rest)) => r == Success(v) && pending == rest
              case Failure(e) => r == Failure(e)
      decreases |pending|, 0
    {
      var head := ReadExact(1);
      if head.Failure? { return Failure(head.error); }
      var prefix := head.value[0];
      if prefix == PLUS || prefix == MINUS {
        var line := ReadLine();
        if line.Failure? { return Failure(line.error); }
        var text := Decode(line.value);
        if text.Failure? { return Failure(text.error); }
        return if prefix == PLUS then Success(Str(text.value)) else Failure(ServerError(text.value));
      }
      if prefix == COLON {
        var n := ReadInt();
        return if n.Failure? then Failure(n.error) else Success(Int(n.value));
      }
      if prefix == DOLLAR {
        var n := ReadInt();
        if n.Failure? { return Failure(n.error); }
        if n.value < 0 { return Success(Null); }
        var payload := ReadExact(n.value);
        if payload.Failure? { return Failure(payload.error); }
        var ending := ReadExact(2);
        if ending.Failure? { return Failure(ending.error); }
        var text := Decode(payload.value);
        return if text.Failure? then Failure(text.error) else Success(Str(text.value));
      }
      if prefix == STAR {
        var n := ReadInt();
        if n.Failure? { return Failure(n.error); }
        if n.value < 0 { return Success(Null); }
        var items := ReadList(n.value);
        return if items.Failure? then Failure(items.error) else Success(List(items.value));
      }
      r := Failure(BadPrefix(prefix));
    }

    /** The list comprehension that reads `count` elements. */
    method ReadList(count: nat) returns (r: Result<seq<PyValue>, ReadError>)
      modifies this
      ensures match ReadItems(old(pending), count)
              case Success(At(vs, rest)) => r == Success(vs) && pending == rest
              case Failure(e) => r == Failure(e)
      decreases |pending|, 1
    {
      hide Read;
      var items: seq<PyValue> := [];
      AfterNothing(ReadItems(pending, count));
      for i := 0 to count
        invariant |pending| <= old(|pending|)
        invariant i == 0 ==> pending == old(pending)
        invariant i > 0 ==> |pending| < old(|pending|)
        invariant ReadItems(old(pending), count) == After(items, ReadItems(pending, count - i))
      {
        var v := ReadResp();
        if v.Failure? { return Failure(v.error); }
        AfterAfter(items, v.value, ReadItems(pending, count - i - 1));
        items := items + [v.value];
      }
      assert items + [] == items;
      r := Success(items);
    }

    method ReadTransactionResponse(commandCount: nat) returns (r: Result<seq<PyValue>, ReadError>)
      modifies this
      ensures match ReadTransaction(old(pending), commandCount)
              case Success(At(vs, rest)) => r == Success(vs) && pending == rest
              case Failure(e) => r == Failure(e)
    {
      var first := ReadResp();
      if first.Failure? { return Failure(first.error); }
      var queued := ReadList(commandCount);
      if queued.Failure? { return Failure(queued.error); }
      var exec := ReadResp();
      if exec.Failure? { return Failure(exec.error); }
      r := if exec.value.List? then Success(exec.value.items) else Failure(NotAnArray);
    }
  }

  // ---- Printing ----

  /** A reply as the server writes it. */
  datatype Reply =
    | Simple(text: Bytes)
    | Error(text: Bytes)
    | Integer(n: int)
    | Bulk(data: Bytes)
    | NullBulk
    | NullArray
    | Array(items: seq<Reply>)

  function IntBytes(n: int): Bytes {
    Ascii(IntText(n))
  }

  function Header(prefix: byte, n: int): (b: Bytes)
    ensures |b| >= 3
  {
    [prefix] + IntBytes(n) + CRLF
  }

  function Print(r: Reply): Bytes {
    match r
    case Simple(text) => [PLUS] + text + CRLF
    case Error(text) => [MINUS] + text + CRLF
    case Integer(n) => Header(COLON, n)
    case Bulk(data) => Header(DOLLAR, |data|) + (data + CRLF)
    case NullBulk => Header(DOLLAR, -1)
    case NullArray => Header(STAR, -1)
    case Array(items) => Header(STAR, |items|) + PrintAll(items)
  }

  function PrintAll(rs: seq<Reply>): Bytes {
    if rs == [] then [] else Print(rs[0]) + PrintAll(rs[1..])
  }

  /** Line-terminated texts must not contain CR LF; bulk payloads may hold anything. */
  predicate WellFormed(r: Reply) {
    match r
    case Simple(text) => LineLength(text).None?
    case Error(text) => LineLength(text).None?
    case Array(items) => forall i :: 0 <= i < |items| ==> WellFormed(items[i])
    case _ => true
  }

  /** What a reply means to the caller of the reader: a value, or the first error met from the left. */
  function Denote(r: Reply): Result<PyValue, ReadError> {
    match r
    case Simple(text) => (match Decode(text) case Failure(e) => Failure(e) case Success(t) => Success(Str(t)))
    case Error(text) => (match Decode(text) case Failure(e) => Failure(e) case Success(t) => Failure(ServerError(t)))
    case Integer(n) => Success(Int(n))
    case Bulk(data) => (match Decode(data) case Failure(e) => Failure(e) case Success(t) => Success(Str(t)))
    case NullBulk => Success(Null)
    case NullArray => Success(Null)
    case Array(items) => (match DenoteAll(items) case Failure(e) => Failure(e) case Success(vs) => Success(List(vs)))
  }

  function DenoteAll(rs: seq<Reply>): (r: Result<seq<PyValue>, ReadError>)
    ensures r.Success? ==> |r.value| == |rs|
  {
    if rs == [] then Success([])
    else
      match Denote(rs[0])
      case Failure(e) => Failure(e)
      case Success(v) =>
        match DenoteAll(rs[1..])
        case Failure(e) => Failure(e)
        case Success(vs) => Success([v] + vs)
  }

  function Located<T>(r: Result<T, ReadError>, rest: Bytes): Reading<T> {
    match r
    case Success(v) => Success(At(v, rest))
    case Failure(e) => Failure(e)
  }

  lemma LineOfText(text: Bytes, rest: Bytes)
    requires LineLength(text).None?
    ensures TakeLine(text + CRLF + rest) == Success(At(text, rest))
  {
    var s := text + CRLF + rest;
    var n := |text|;
    assert CrlfAt(s, n);
    forall i | 0 <= i < n ensures !CrlfAt(s, i) {
      assert !CrlfAt(text, i);
    }
    assert LineLength(s) == Some(n);
    assert s[..n] == text && s[n + 2..] == rest;
  }

  lemma NoCarriageReturn(b: Bytes)
    requires forall i :: 0 <= i < |b| ==> b[i] != CR
    ensures LineLength(b).None?
  {}

  lemma IntBytesIsOneLine(n: int)
    ensures LineLength(IntBytes(n)).None?
  {
    hide Decimal, PyInt;
    var text := IntText(n);
    var b := IntBytes(n);
    forall i | 0 <= i < |b| ensures b[i] != CR {
      assert Latin(b)[i] == text[i];
    }
    NoCarriageReturn(b);
  }

  lemma IntOfHeader(prefix: byte, n: int, rest: Bytes)
    ensures (Header(prefix, n) + rest)[0] == prefix
    ensures TakeInt((Header(prefix, n) + rest)[1..]) == Success(At(n, rest))
  {
    hide IntText, PyInt, Latin, LineLength;
    IntBytesIsOneLine(n);
    LineOfText(IntBytes(n), rest);
    PyIntOfIntText(n);
    assert (Header(prefix, n) + rest)[1..] == IntBytes(n) + CRLF + rest;
  }

  lemma ReadPrintedLine(prefix: byte, text: Bytes, rest: Bytes)
    requires LineLength(text).None?
    ensures ([prefix] + text + CRLF + rest)[0] == prefix
    ensures TakeLine(([prefix] + text + CRLF + rest)[1..]) == Success(At(text, rest))
  {
    LineOfText(text, rest);
    assert ([prefix] + text + CRLF + rest)[1..] == text + CRLF + rest;
  }

  lemma ReadPrintedBulk(data: Bytes, rest: Bytes)
    ensures ReadPayload(data + CRLF + rest, |data|) == Located(Denote(Bulk(data)), rest)
  {
    var tail := data + CRLF + rest;
    assert tail[..|data|] == data && tail[|data|..] == CRLF + rest;
    assert (CRLF + rest)[2..] == rest;
  }

  /** The reader's case for a header with a number, for bulk strings and arrays. */
  lemma ReadCounted(s: Bytes, n: int, tail: Bytes)
    requires s != [] && TakeInt(s[1..]) == Success(At(n, tail))
    ensures s[0] == COLON ==> Read(s) == Success(At(Int(n), tail))
    ensures n < 0 && (s[0] == DOLLAR || s[0] == STAR) ==> Read(s) == Success(At(Null, tail))
    ensures n >= 0 && s[0] == DOLLAR ==> Read(s) == ReadPayload(tail, n)
    ensures n >= 0 && s[0] == STAR ==>
              Read(s) == match ReadItems(tail, n)
                         case Failure(e) => Failure(e)
                         case Success(At(items, rest)) => Success(At(List(items), rest))
  {
    hide TakeInt, TakeLine, ReadPayload, ReadItems;
  }

  lemma ReadLined(s: Bytes, line: Bytes, rest: Bytes)
    requires s != [] && TakeLine(s[1..]) == Success(At(line, rest))
    ensures s[0] == PLUS ==> Read(s) == Located(Denote(Simple(line)), rest)
    ensures s[0] == MINUS ==> Read(s) == Located(Denote(Error(line)), rest)
  {
    hide TakeInt, TakeLine, ReadPayload, ReadItems;
  }

  /** Reading what the server printed gives its meaning and leaves exactly the bytes that followed. */
  lemma {:induction false} ReadPrinted(r: Reply, rest: Bytes)
    requires WellFormed(r)
    ensures Read(Print(r) + rest) == Located(Denote(r), rest)
    decreases r, 0
  {
    hide Read, ReadItems, ReadPayload, TakeInt, TakeLine, LineLength, Header, Utf8Valid;
    var s := Print(r) + rest;
    match r
    case Simple(text) =>
      ReadPrintedLine(PLUS, text, rest);
      ReadLined(s, text, rest);
    case Error(text) =>
      ReadPrintedLine(MINUS, text, rest);
      ReadLined(s, text, rest);
    case Integer(n) =>
      IntOfHeader(COLON, n, rest);
      ReadCounted(s, n, rest);
    case Bulk(data) =>
      var tail := data + CRLF + rest;
      assert s == Header(DOLLAR, |data|) + tail;
      IntOfHeader(DOLLAR, |data|, tail);
      ReadCounted(s, |data|, tail);
      ReadPrintedBulk(data, rest);
    case NullBulk =>
      IntOfHeader(DOLLAR, -1, rest);
      ReadCounted(s, -1, rest);
    case NullArray =>
      IntOfHeader(STAR, -1, rest);
      ReadCounted(s, -1, rest);
    case Array(items) =>
      var tail := PrintAll(items) + rest;
      assert s == Header(STAR, |items|) + tail;
      IntOfHeader(STAR, |items|, tail);
      ReadCounted(s, |items|, tail);
      ReadAllPrinted(items, rest);
  }

  lemma {:induction false} ReadAllPrinted(rs: seq<Reply>, rest: Bytes)
    requires forall i :: 0 <= i < |rs| ==> WellFormed(rs[i])
    ensures ReadItems(PrintAll(rs) + rest, |rs|) == Located(DenoteAll(rs), rest)
    decreases rs, 0
  {
    hide Read, Print, WellFormed, Denote;
    if rs == [] {
      assert PrintAll(rs) + rest == rest;
    } else {
      var tail := PrintAll(rs[1..]) + rest;
      assert PrintAll(rs) + rest == Print(rs[0]) + tail;
      ReadPrinted(rs[0], tail);
      ReadAllPrinted(rs[1..], rest);
    }
  }

  // ---- Commands ----

  /** A command is an array of bulk strings. */
  function CommandReply(parts: seq<Utf8>): Reply {
    Array(seq(|parts|, i requires 0 <= i < |parts| => Bulk(parts[i])))
  }

  function CommandValue(parts: seq<Utf8>): PyValue {
    List(seq(|parts|, i requires 0 <= i < |parts| => Str(parts[i])))
  }

  lemma {:induction false} PrintAllAppend(rs: seq<Reply>, r: Reply)
    ensures PrintAll(rs + [r]) == PrintAll(rs) + Print(r)
  {
    if rs == [] {
      assert rs + [r] == [r];
      assert PrintAll([r]) == Print(r) + PrintAll([]);
    } else {
      assert (rs + [r])[1..] == rs[1..] + [r];
      PrintAllAppend(rs[1..], r);
    }
  }

  /** A text of characters below 256, as bytes. */
  function Spell(s: string): (b: Bytes)
    ensures |b| == |s|
  {
    seq(|s|, i requires 0 <= i < |s| => (s[i] as int % 256) as byte)
  }

  /** Each string as the protocol writes it: "$", its length in bytes, and the bytes, each line ended. */
  function SpelledParts(parts: seq<Utf8>): Bytes {
    if parts == [] then []
    else Spell("$" + IntText(|parts[0]|) + "\r\n") + parts[0] + Spell("\r\n") + SpelledParts(parts[1..])
  }

  lemma SpellConcat(s: string, t: string)
    ensures Spell(s + t) == Spell(s) + Spell(t)
  {}

  lemma HeaderSpelled(prefix: byte, mark: string, n: int)
    requires Spell(mark) == [prefix]
    ensures Header(prefix, n) == Spell(mark + IntText(n) + "\r\n")
  {
    hide IntText;
    SpellConcat(mark + IntText(n), "\r\n");
    SpellConcat(mark, IntText(n));
    assert Spell(IntText(n)) == IntBytes(n);
    assert Spell("\r\n") == CRLF;
  }

  lemma {:induction false} BulksSpelled(parts: seq<Utf8>)
    ensures PrintAll(CommandReply(parts).items) == SpelledParts(parts)
  {
    hide IntText, Header, Spell, Utf8Valid;
    if parts != [] {
      BulksSpelled(parts[1..]);
      BulkSpelled(parts[0]);
      var items := CommandReply(parts).items;
      assert items[0] == Bulk(parts[0]) && items[1..] == CommandReply(parts[1..]).items;
    }
  }

  lemma BulkSpelled(data: Bytes)
    ensures Print(Bulk(data)) == Spell("$" + IntText(|data|) + "\r\n") + data + Spell("\r\n")
  {
    hide IntText, Header;
    assert Spell("$") == [DOLLAR] && Spell("\r\n") == CRLF;
    HeaderSpelled(DOLLAR, "$", |data|);
  }

  lemma CommandSpelled(parts: seq<Utf8>)
    ensures Print(CommandReply(parts)) == Spell("*" + IntText(|parts|) + "\r\n") + SpelledParts(parts)
  {
    hide IntText, Header;
    assert Spell("*") == [STAR];
    HeaderSpelled(STAR, "*", |parts|);
    BulksSpelled(parts);
  }

  /** What goes over the wire: "*" and the number of strings, then each string. */
  method EncodeCommand(parts: seq<Utf8>) returns (encoded: Bytes)
    ensures encoded == Print(CommandReply(parts))
    ensures encoded == Spell("*" + IntText(|parts|) + "\r\n") + SpelledParts(parts)
  {
    CommandSpelled(parts);
    hide Utf8Valid, Header, PrintAll, Spell, SpelledParts, IntText;
    ghost var bulks := CommandReply(parts).items;
    encoded := Header(STAR, |parts|);
    assert PrintAll(bulks[..0]) == [] by { PrintAllOfNone(); }
    for i := 0 to |parts|
      invariant encoded == Header(STAR, |parts|) + PrintAll(bulks[..i])
    {
      var data := parts[i];
      ghost var before := encoded;
      encoded := encoded + Header(DOLLAR, |data|);
      encoded := encoded + (data + CRLF);
      assert bulks[..i + 1] == bulks[..i] + [Bulk(data)];
      PrintAllAppend(bulks[..i], Bulk(data));
      assert encoded == before + Print(Bulk(data));
    }
    assert bulks[..|parts|] == bulks;
  }

  lemma PrintAllOfNone()
    ensures PrintAll([]) == []
  {}

  lemma {:induction false} DenoteBulks(parts: seq<Utf8>)
    ensures DenoteAll(CommandReply(parts).items) == Success(CommandValue(parts).items)
  {
    hide Utf8Valid;
    if parts == [] {
      assert CommandReply(parts).items == [] && CommandValue(parts).items == [];
    } else {
      DenoteBulks(parts[1..]);
      assert CommandReply(parts).items[0] == Bulk(parts[0]);
      assert CommandReply(parts).items[1..] == CommandReply(parts[1..]).items;
      assert CommandValue(parts).items == [Str(parts[0])] + CommandValue(parts[1..]).items;
    }
  }

  /** The framing law: an encoded command followed by anything reads back as exactly its parts. */
  lemma CommandRoundTrip(parts: seq<Utf8>, rest: Bytes)
    ensures Read(Print(CommandReply(parts)) + rest) == Success(At(CommandValue(parts), rest))
  {
    ReadPrinted(CommandReply(parts), rest);
    DenoteBulks(parts);
  }

  /** What `_execute_transaction` sends: MULTI, the commands, EXEC. */
  function TransactionPayload(commands: seq<seq<Utf8>>): Bytes {
    PrintAll([CommandReply([Word("MULTI")])] + Map(CommandReply, commands) + [CommandReply([Word("EXEC")])])
  }

  function Word(s: string): Utf8
    requires IsAscii(s)
  {
    AsciiIsUtf8(Ascii(s));
    Ascii(s)
  }

  lemma AsciiIsUtf8(b: Bytes)
    requires forall i :: 0 <= i < |b| ==> b[i] < 128
    ensures Utf8Valid(b)
  {}

  lemma {:induction false} DenoteCommands(commands: seq<seq<Utf8>>)
    ensures DenoteAll(Map(CommandReply, commands)) == Success(Map(CommandValue, commands))
  {
    var rs := Map(CommandReply, commands);
    if commands == [] {
      assert Map(CommandValue, commands) == [];
    } else {
      DenoteBulks(commands[0]);
      DenoteCommands(commands[1..]);
      assert rs[1..] == Map(CommandReply, commands[1..]);
      assert Map(CommandValue, commands) == [CommandValue(commands[0])] + Map(CommandValue, commands[1..]);
    }
  }

  lemma MapWithEnds<T, U>(f: T -> U, first: T, xs: seq<T>, last: T)
    ensures Map(f, [first] + xs + [last]) == [f(first)] + Map(f, xs) + [f(last)]
  {}

  lemma CommandIsWellFormed(parts: seq<Utf8>)
    ensures WellFormed(CommandReply(parts))
  {}

  /** A server reading the pipelined payload sees exactly the commands, in order, and nothing more. */
  lemma TransactionFraming(commands: seq<seq<Utf8>>, rest: Bytes)
    ensures ReadItems(TransactionPayload(commands) + rest, |commands| + 2)
         == Success(At([CommandValue([Word("MULTI")])] + Map(CommandValue, commands)
                       + [CommandValue([Word("EXEC")])], rest))
  {
    hide Read, ReadItems, Print, PrintAll, Denote, DenoteAll, WellFormed, CommandReply, CommandValue, Word;
    var all := [[Word("MULTI")]] + commands + [[Word("EXEC")]];
    DenoteCommands(all);
    MapWithEnds(CommandReply, [Word("MULTI")], commands, [Word("EXEC")]);
    MapWithEnds(CommandValue, [Word("MULTI")], commands, [Word("EXEC")]);
    var rs := Map(CommandReply, all);
    forall i | 0 <= i < |rs| ensures WellFormed(rs[i]) { CommandIsWellFormed(all[i]); }
    ReadAllPrinted(rs, rest);
  }

  lemma {:induction false} PrintAllSplit(a: seq<Reply>, b: seq<Reply>)
    ensures PrintAll(a + b) == PrintAll(a) + PrintAll(b)
  {
    if a == [] {
      assert a + b == b;
    } else {
      assert (a + b)[1..] == a[1..] + b;
      PrintAllSplit(a[1..], b);
    }
  }

  /** The whole answer to a transaction of `n` commands is consumed. The EXEC array comes back exactly
      when no reply before it is an error and EXEC itself answers with an array. */
  lemma TransactionReplyRoundTrip(queued: seq<Reply>, exec: Reply, rest: Bytes)
    requires queued != [] && WellFormed(exec) && forall i :: 0 <= i < |queued| ==> WellFormed(queued[i])
    ensures ReadTransaction(PrintAll(queued + [exec]) + rest, |queued| - 1)
         == match DenoteAll(queued)
            case Failure(e) => Failure(e)
            case Success(_) =>
              match Denote(exec)
              case Failure(e) => Failure(e)
              case Success(v) => if v.List? then Success(At(v.items, rest)) else Failure(NotAnArray)
  {
    hide Read, ReadItems, Print, PrintAll, Denote, DenoteAll, WellFormed;
    PrintAllAppend(queued, exec);
    assert PrintAll(queued + [exec]) + rest == PrintAll(queued) + (Print(exec) + rest);
    ReadAllPrinted(queued, Print(exec) + rest);
    ReadPrinted(exec, rest);
  }
}

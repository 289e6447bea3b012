/** What the reader of `Resp` makes of bytes spelled out as the Redis serialization protocol has them, of
    streams that end too early, and of bytes that are not UTF-8. */
module Wire {
  import opened Prelude
  import opened Text
  import opened Resp

  // ---- Replies, spelled out ----

  /** A reply, character by character. */
  function Spelled(r: Reply): Bytes {
    match r
    case Simple(text) => Spell("+") + text + Spell("\r\n")
    case Error(text) => Spell("-") + text + Spell("\r\n")
    case Integer(n) => Spell(":" + IntText(n) + "\r\n")
    case Bulk(data) => Spell("$" + IntText(|data|) + "\r\n") + data + Spell("\r\n")
    case NullBulk => Spell("$-1\r\n")
    case NullArray => Spell("*-1\r\n")
    case Array(items) => Spell("*" + IntText(|items|) + "\r\n") + SpelledAll(items)
  }

  function SpelledAll(rs: seq<Reply>): Bytes {
    if rs == [] then [] else Spelled(rs[0]) + SpelledAll(rs[1..])
  }

  lemma MinusOne()
    ensures IntText(-1) == "-1"
  {
    assert Decimal(1) == "1";
  }

  lemma Marks()
    ensures Spell("+") == [PLUS] && Spell("-") == [MINUS] && Spell(":") == [COLON] && Spell("$") == [DOLLAR] && Spell("*") == [STAR]
    ensures Spell("\r\n") == CRLF
  {}

  /** The server's replies are these bytes. */
  lemma {:induction false} PrintIsSpelled(r: Reply)
    ensures Print(r) == Spelled(r)
    decreases r, 0
  {
    Marks();
    MinusOne();
    hide IntText, Header, Spell, PLUS, MINUS, COLON, DOLLAR, STAR, CRLF;
    match r
    case Simple(_) =>
    case Error(_) =>
    case Integer(n) => HeaderSpelled(COLON, ":", n);
    case Bulk(data) => BulkSpelled(data);
    case NullBulk =>
      HeaderSpelled(DOLLAR, "$", -1);
      assert "$" + "-1" + "\r\n" == "$-1\r\n";
    case NullArray =>
      HeaderSpelled(STAR, "*", -1);
      assert "*" + "-1" + "\r\n" == "*-1\r\n";
    case Array(items) =>
      HeaderSpelled(STAR, "*", |items|);
      PrintAllIsSpelled(items);
  }

  lemma {:induction false} PrintAllIsSpelled(rs: seq<Reply>)
    ensures PrintAll(rs) == SpelledAll(rs)
    decreases rs, 0
  {
    hide Print, Spelled;
    if rs != [] {
      PrintIsSpelled(rs[0]);
      PrintAllIsSpelled(rs[1..]);
    }
  }

  /** Reading a reply spelled out gives its meaning and leaves exactly the bytes that followed. */
  lemma ReadSpelled(r: Reply, rest: Bytes)
    requires WellFormed(r)
    ensures Read(Spelled(r) + rest) == Located(Denote(r), rest)
  {
    hide Read, Print, Spelled, Denote, WellFormed;
    PrintIsSpelled(r);
    ReadPrinted(r, rest);
  }

  /** What the reader rejects, and how: nothing at all, an unknown first byte, and a number that is none. */
  lemma ReadRejects(prefix: byte, line: Bytes, rest: Bytes)
    ensures Read([]) == Failure(ConnectionClosed)
    ensures prefix !in Spell("+-:$*") ==> Read([prefix] + rest) == Failure(BadPrefix(prefix))
    ensures prefix in Spell(":$*") && LineLength(line).None? && PyInt(Latin(line)).None? ==>
              Read([prefix] + line + Spell("\r\n") + rest) == Failure(BadInteger)
    ensures LineLength(line).None? && !Utf8Valid(line) ==>
              Read(Spell("+") + line + Spell("\r\n") + rest) == Failure(BadUtf8)
  {
    Marks();
    PrefixBytes(prefix);
    hide Spell, CRLF, Utf8Valid, PyInt, LineLength, TakeLine;
    assert ([prefix] + rest)[0] == prefix;
    if LineLength(line).None? {
      LineOfText(line, rest);
      assert ([prefix] + line + CRLF + rest)[1..] == line + CRLF + rest;
      assert ([PLUS] + line + CRLF + rest)[1..] == line + CRLF + rest;
    }
  }

  lemma PrefixBytes(prefix: byte)
    ensures prefix in Spell("+-:$*") <==> prefix == PLUS || prefix == MINUS || prefix == COLON || prefix == DOLLAR || prefix == STAR
    ensures prefix in Spell(":$*") <==> prefix == COLON || prefix == DOLLAR || prefix == STAR
  {
    assert Spell("+-:$*") == [PLUS, MINUS, COLON, DOLLAR, STAR];
    assert Spell(":$*") == [COLON, DOLLAR, STAR];
  }

  // ---- Streams that end too early ----

  /** A line cut short has no end yet. */
  lemma CutLine(text: Bytes, m: nat)
    requires LineLength(text).None? && m < |text| + 2
    ensures TakeLine((text + CRLF)[..m]) == Failure(ConnectionClosed)
  {
    var s := (text + CRLF)[..m];
    forall i ensures !CrlfAt(s, i) {
      assert 0 <= i && i + 1 < |text| ==> (CrlfAt(text, i) <==> text[i] == CR && text[i + 1] == LF);
    }
    assert LineLength(s).None?;
  }

  /** No proper prefix of a reply is taken for a reply: the reader asks for more. (An error inside an array is
      met, and raised, before the end.) */
  lemma {:induction false} CutReplyIsIncomplete(r: Reply, m: nat)
    requires WellFormed(r) && Denote(r).Success? && m < |Print(r)|
    ensures Read(Print(r)[..m]) == Failure(ConnectionClosed)
    decreases r, 0
  {
    hide Read, Header, PrintAll, LineLength, Utf8Valid, PLUS, MINUS, COLON, DOLLAR, STAR;
    if m == 0 {
      assert Print(r)[..0] == [];
      NothingToRead();
    } else {
      match r
      case Simple(text) => CutAfterPrefix(PLUS, text, m);
      case Error(text) => CutAfterPrefix(MINUS, text, m);
      case Integer(n) =>
        CutHeader(COLON, n, [], m);
        assert Header(COLON, n) + [] == Header(COLON, n);
      case NullBulk =>
        CutHeader(DOLLAR, -1, [], m);
        assert Header(DOLLAR, -1) + [] == Header(DOLLAR, -1);
      case NullArray =>
        CutHeader(STAR, -1, [], m);
        assert Header(STAR, -1) + [] == Header(STAR, -1);
      case Bulk(data) => CutBulk(data, m);
      case Array(items) => CutArray(items, m);
    }
  }

  lemma NothingToRead()
    ensures Read([]) == Failure(ConnectionClosed)
  {}

  /** A line that has not ended fails whatever was to be read from it. */
  lemma ReadCutLine(s: Bytes)
    requires s != [] && TakeLine(s[1..]) == Failure(ConnectionClosed)
    requires s[0] == PLUS || s[0] == MINUS || s[0] == COLON || s[0] == DOLLAR || s[0] == STAR
    ensures Read(s) == Failure(ConnectionClosed)
  {
    hide TakeLine, ReadItems, ReadPayload;
  }

  lemma CutAfterPrefix(prefix: byte, text: Bytes, m: nat)
    requires LineLength(text).None? && 0 < m < |text| + 3
    requires prefix == PLUS || prefix == MINUS || prefix == COLON || prefix == DOLLAR || prefix == STAR
    ensures Read(([prefix] + text + CRLF)[..m]) == Failure(ConnectionClosed)
  {
    hide Read, LineLength, TakeLine;
    var s := ([prefix] + text + CRLF)[..m];
    assert s[1..] == (text + CRLF)[..m - 1];
    CutLine(text, m - 1);
    ReadCutLine(s);
  }

  /** A header that is cut off. */
  lemma CutHeader(prefix: byte, n: int, body: Bytes, m: nat)
    requires prefix == COLON || prefix == DOLLAR || prefix == STAR
    requires 0 < m < |Header(prefix, n)|
    ensures Read((Header(prefix, n) + body)[..m]) == Failure(ConnectionClosed)
  {
    hide Read, LineLength, IntBytes;
    var text := IntBytes(n);
    NumberHasNoLineEnd(n);
    CutAfterPrefix(prefix, text, m);
    assert (Header(prefix, n) + body)[..m] == ([prefix] + text + CRLF)[..m];
  }

  lemma NumberHasNoLineEnd(n: int)
    ensures LineLength(IntBytes(n)).None?
  {
    hide LineLength, IntText;
    forall i ensures !CrlfAt(IntBytes(n), i) {
      if 0 <= i < |IntBytes(n)| { assert IntBytes(n)[i] as int == IntText(n)[i] as int; }
    }
  }

  lemma CutBulk(data: Bytes, m: nat)
    requires 0 < m < |Print(Bulk(data))|
    ensures Read(Print(Bulk(data))[..m]) == Failure(ConnectionClosed)
  {
    var header := Header(DOLLAR, |data|);
    var body := data + CRLF;
    if m < |header| {
      CutHeader(DOLLAR, |data|, body, m);
    } else {
      var tail := body[..m - |header|];
      assert (header + body)[..m] == header + tail;
      hide Header, Read;
      ReadCutPayload(|data|, tail);
    }
  }

  lemma ReadCutPayload(length: nat, tail: Bytes)
    requires |tail| < length + 2
    ensures Read(Header(DOLLAR, length) + tail) == Failure(ConnectionClosed)
  {
    hide ReadItems, TakeInt, Header, Utf8Valid;
    IntOfHeader(DOLLAR, length, tail);
  }

  lemma CutArray(items: seq<Reply>, m: nat)
    requires (forall i :: 0 <= i < |items| ==> WellFormed(items[i])) && DenoteAll(items).Success?
    requires 0 < m < |Print(Array(items))|
    ensures Read(Print(Array(items))[..m]) == Failure(ConnectionClosed)
    decreases items, 1
  {
    var header := Header(STAR, |items|);
    var body := PrintAll(items);
    hide Header, PrintAll, Read, ReadItems, WellFormed, DenoteAll;
    if m < |header| {
      CutHeader(STAR, |items|, body, m);
    } else {
      var tail := body[..m - |header|];
      assert (header + body)[..m] == header + tail;
      CutItems(items, m - |header|);
      ReadCutItems(|items|, tail);
    }
  }

  lemma ReadCutItems(count: nat, tail: Bytes)
    requires ReadItems(tail, count) == Failure(ConnectionClosed)
    ensures Read(Header(STAR, count) + tail) == Failure(ConnectionClosed)
  {
    hide ReadItems, TakeInt, Header;
    IntOfHeader(STAR, count, tail);
  }

  lemma {:induction false} CutItems(items: seq<Reply>, m: nat)
    requires (forall i :: 0 <= i < |items| ==> WellFormed(items[i])) && DenoteAll(items).Success?
    requires m < |PrintAll(items)|
    ensures ReadItems(PrintAll(items)[..m], |items|) == Failure(ConnectionClosed)
    decreases items, 0
  {
    hide Read, Print, Denote, WellFormed;
    var first := Print(items[0]);
    if m < |first| {
      assert PrintAll(items)[..m] == first[..m];
      CutReplyIsIncomplete(items[0], m);
    } else {
      var tail := PrintAll(items[1..])[..m - |first|];
      assert PrintAll(items)[..m] == first + tail;
      ReadPrinted(items[0], tail);
      CutItems(items[1..], m - |first|);
    }
  }

  // ---- UTF-8 ----

  /** The Unicode scalar values: every code point but the surrogates. */
  predicate IsScalar(c: nat) {
    c <= 0x10FFFF && !(0xD800 <= c <= 0xDFFF)
  }

  /** Section 3 of RFC 3629: the bits of the code point, six to a tail byte. */
  function EncodeScalar(c: nat): Bytes
    requires IsScalar(c)
  {
    if c < 0x80 then [c as byte]
    else if c < 0x800 then [(0xC0 + c / 64) as byte, Tail(c)]
    else if c < 0x1_0000 then [(0xE0 + c / 4096) as byte, Tail(c / 64), Tail(c)]
    else [(0xF0 + c / 262144) as byte, Tail(c / 4096), Tail(c / 64), Tail(c)]
  }

  function Tail(c: nat): byte {
    (0x80 + c % 64) as byte
  }

  function EncodeAll(cs: seq<nat>): Bytes
    requires forall c :: c in cs ==> IsScalar(c)
  {
    if cs == [] then [] else EncodeScalar(cs[0]) + EncodeAll(cs[1..])
  }

  lemma ScalarStarts(c: nat, rest: Bytes)
    requires IsScalar(c)
    ensures StartsScalar(EncodeScalar(c) + rest, |EncodeScalar(c)|)
  {}

  lemma EncodedIsValid(c: nat, rest: Bytes)
    requires IsScalar(c)
    ensures Utf8Valid(EncodeScalar(c) + rest) <==> Utf8Valid(rest)
  {
    ScalarStarts(c, rest);
    hide Utf8Valid, EncodeScalar;
    var s := EncodeScalar(c) + rest;
    assert s[|EncodeScalar(c)|..] == rest;
    ValidStep(s);
  }

  /** How many bytes the first character takes, going by its first byte. */
  predicate StartsScalar(s: Bytes, n: nat) {
    && 1 <= n <= 4 && n <= |s| && (forall i :: 1 <= i < n ==> IsTail(s[i]))
    && (n == 1 ==> s[0] <= 0x7F)
    && (n == 2 ==> 0xC2 <= s[0] <= 0xDF)
    && (n == 3 ==> 0xE0 <= s[0] <= 0xEF && (s[0] == 0xE0 ==> s[1] >= 0xA0) && (s[0] == 0xED ==> s[1] <= 0x9F))
    && (n == 4 ==> 0xF0 <= s[0] <= 0xF4 && (s[0] == 0xF0 ==> s[1] >= 0x90) && (s[0] == 0xF4 ==> s[1] <= 0x8F))
  }

  lemma ValidStep(s: Bytes)
    requires s != []
    ensures forall n: nat :: StartsScalar(s, n) ==> (Utf8Valid(s) <==> Utf8Valid(s[n..]))
    ensures Utf8Valid(s) ==> exists n: nat :: StartsScalar(s, n)
  {
    if Utf8Valid(s) {
      var n: nat := if s[0] <= 0x7F then 1 else if s[0] <= 0xDF then 2 else if s[0] <= 0xEF then 3 else 4;
      assert StartsScalar(s, n);
    }
  }

  lemma DecodeStart(s: Bytes, n: nat) returns (c: nat)
    requires StartsScalar(s, n)
    ensures IsScalar(c) && EncodeScalar(c) == s[..n]
  {
    var t := s[..n];
    assert forall i :: 0 <= i < n ==> t[i] == s[i];
    if n == 1 {
      c := t[0] as int;
    } else if n == 2 {
      c := DecodeTwo(t[0], t[1]);
      assert t == [t[0], t[1]];
    } else if n == 3 {
      c := DecodeThree(t[0], t[1], t[2]);
      assert t == [t[0], t[1], t[2]];
    } else {
      c := DecodeFour(t[0], t[1], t[2], t[3]);
      assert t == [t[0], t[1], t[2], t[3]];
    }
  }

  lemma DecodeTwo(a: byte, b: byte) returns (c: nat)
    requires 0xC2 <= a <= 0xDF && IsTail(b)
    ensures IsScalar(c) && EncodeScalar(c) == [a, b]
  {
    c := (a as int - 0xC0) * 64 + (b as int - 0x80);
    assert c / 64 == a as int - 0xC0 && c % 64 == b as int - 0x80;
  }

  lemma DecodeThree(a: byte, b: byte, d: byte) returns (c: nat)
    requires 0xE0 <= a <= 0xEF && IsTail(b) && IsTail(d)
    requires (a == 0xE0 ==> b >= 0xA0) && (a == 0xED ==> b <= 0x9F)
    ensures IsScalar(c) && EncodeScalar(c) == [a, b, d]
  {
    var u := (a as int - 0xE0) * 64 + (b as int - 0x80);
    c := u * 64 + (d as int - 0x80);
    assert c / 64 == u && c % 64 == d as int - 0x80;
    assert u / 64 == a as int - 0xE0 && u % 64 == b as int - 0x80;
    assert c / 4096 == u / 64;
  }

  lemma DecodeFour(a: byte, b: byte, d: byte, e: byte) returns (c: nat)
    requires 0xF0 <= a <= 0xF4 && IsTail(b) && IsTail(d) && IsTail(e)
    requires (a == 0xF0 ==> b >= 0x90) && (a == 0xF4 ==> b <= 0x8F)
    ensures IsScalar(c) && EncodeScalar(c) == [a, b, d, e]
  {
    var u := (a as int - 0xF0) * 64 + (b as int - 0x80);
    var v := u * 64 + (d as int - 0x80);
    c := v * 64 + (e as int - 0x80);
    assert c / 64 == v && c % 64 == e as int - 0x80;
    assert v / 64 == u && v % 64 == d as int - 0x80;
    assert u / 64 == a as int - 0xF0 && u % 64 == b as int - 0x80;
    assert c / 4096 == u && c / 262144 == u / 64;
  }

  /** The bytes that decode are exactly the encodings of sequences of scalar values. */
  lemma Utf8ValidIff(b: Bytes)
    ensures Utf8Valid(b) <==> exists cs: seq<nat> :: (forall c :: c in cs ==> IsScalar(c)) && EncodeAll(cs) == b
  {
    if Utf8Valid(b) {
      var cs := Scalars(b);
    }
    if cs: seq<nat> :| (forall c :: c in cs ==> IsScalar(c)) && EncodeAll(cs) == b {
      EncodingIsValid(cs);
    }
  }

  lemma {:induction false} EncodingIsValid(cs: seq<nat>)
    requires forall c :: c in cs ==> IsScalar(c)
    ensures Utf8Valid(EncodeAll(cs))
  {
    if cs == [] {
      assert EncodeAll(cs) == [];
    } else {
      assert cs[0] in cs;
      EncodingIsValid(cs[1..]);
      hide Utf8Valid, EncodeScalar;
      EncodedIsValid(cs[0], EncodeAll(cs[1..]));
    }
  }

  lemma {:induction false} Scalars(b: Bytes) returns (cs: seq<nat>)
    requires Utf8Valid(b)
    ensures (forall c :: c in cs ==> IsScalar(c)) && EncodeAll(cs) == b
    decreases |b|
  {
    if b == [] {
      cs := [];
    } else {
      ValidStep(b);
      hide Utf8Valid, EncodeScalar;
      var n: nat :| StartsScalar(b, n);
      var c := DecodeStart(b, n);
      var more := Scalars(b[n..]);
      cs := [c] + more;
      assert cs[1..] == more && b == b[..n] + b[n..];
    }
  }
}

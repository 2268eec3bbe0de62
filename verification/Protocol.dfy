/** The wire format of draft-hedberg-spocp-tcp-00, section 2: a message is the framed
    concatenation of its framed operation and arguments. */
module Protocol {

  import opened Wrappers
  import opened ByteStrings

  datatype Message = Message(operation: Bytes, arguments: seq<Bytes>)

  datatype Response = Response(code: Bytes, message: Bytes)

  const CODE_OK: Bytes := [50, 48, 48]
  const CODE_BYE: Bytes := [50, 48, 51]
  const CODE_DENIED: Bytes := [52, 48, 48]
  const CODE_ERROR: Bytes := [53, 48, 48]
  const CODE_UNKNOWN: Bytes := [53, 48, 49]

  // -------------------------------------------------------------------- encoding

  function LVs(vs: seq<Bytes>): Bytes
  {
    if vs == [] then [] else LV(vs[0]) + LVs(vs[1..])
  }

  function EncodedMessage(m: Message): Bytes
  {
    LV(LVs([m.operation] + m.arguments))
  }

  function EncodedResponse(r: Response): Bytes
  {
    LV(r.code + [COLON] + r.message)
  }

  method EncodeMessage(m: Message) returns (encoded: Bytes)
    ensures encoded == EncodedMessage(m)
  {
    var inner := LV(m.operation);
    ghost var all := LVs([m.operation] + m.arguments);
    assert ([m.operation] + m.arguments)[1..] == m.arguments;
    for i := 0 to |m.arguments|
      invariant all == inner + LVs(m.arguments[i..])
    {
      assert m.arguments[i..][1..] == m.arguments[i + 1..];
      Regroup(inner, LV(m.arguments[i]), LVs(m.arguments[i + 1..]));
      inner := inner + LV(m.arguments[i]);
    }
    assert inner + [] == inner;
    encoded := LV(inner);
  }

  // -------------------------------------------------------------------- decoding

  /** The longest buffer Go's make allocates on a 64-bit machine; beyond it make panics. */
  const MAX_ALLOC := 0x1_0000_0000_0000

  /** A framed value and what follows it. A stream without a colon reads as its end,
      whatever it holds; a length beyond all buffers panics before a byte of the value is
      read; anything else that is not a framed value is an error. */
  datatype Read = Value(value: Bytes, rest: Bytes) | End | Bad | Overlong

  function ReadLV(s: Bytes): (r: Read)
    ensures r.Value? ==> |r.rest| < |s|
  {
    match IndexByte(s, COLON)
    case None => End
    case Some(i) =>
      match Atoi(s[..i])
      case None => Bad
      case Some(n) =>
        var body := s[i + 1..];
        if n < 0 then Bad
        else if n > MAX_ALLOC then Overlong
        else if |body| < n then Bad
        else Value(body[..n], body[n..])
  }

  /** The framed values up to the end of the stream. */
  function ReadLVs(s: Bytes): Outcome<seq<Bytes>>
    decreases |s|
  {
    match ReadLV(s)
    case End => Done([])
    case Bad => Failed
    case Overlong => Crashed
    case Value(v, rest) => Prepend([v], ReadLVs(rest))
  }

  datatype Decode<+T> = Decoded(value: T, rest: Bytes) | Undecodable | Panicked

  function MessageAt(s: Bytes): (r: Decode<Message>)
    ensures r.Decoded? ==> |r.rest| < |s|
  {
    match ReadLV(s)
    case Value(outer, rest) =>
      (match ReadLV(outer)
       case Value(operation, arguments) =>
         (match ReadLVs(arguments)
          case Done(vs) => Decoded(Message(operation, vs), rest)
          case Crashed => Panicked
          case Failed => Undecodable)
       case Overlong => Panicked
       case _ => Undecodable)
    case Overlong => Panicked
    case _ => Undecodable
  }

  function ResponseAt(s: Bytes): (r: Decode<Response>)
    ensures r.Decoded? ==> |r.rest| < |s|
  {
    match ReadLV(s)
    case Value(content, rest) =>
      (match IndexByte(content, COLON)
       case Some(i) => Decoded(Response(content[..i], content[i + 1..]), rest)
       case None => Undecodable)
    case Overlong => Panicked
    case _ => Undecodable
  }

  /** A buffered reader: the bytes still to come. */
  class Reader {
    var unread: Bytes

    constructor (input: Bytes)
      ensures unread == input
    {
      unread := input;
    }

    method ReadFramed() returns (r: Read)
      modifies this
      ensures r == ReadLV(old(unread))
      ensures r.Value? ==> unread == r.rest
    {
      var colon := IndexByte(unread, COLON);
      if colon.None? {
        return End;
      }
      var length := Atoi(unread[..colon.value]);
      unread := unread[colon.value + 1..];
      if length.None? || length.value < 0 {
        return Bad;
      }
      if length.value > MAX_ALLOC {
        return Overlong;
      }
      if |unread| < length.value {
        return Bad;
      }
      r := Value(unread[..length.value], unread[length.value..]);
      unread := unread[length.value..];
    }

    method DecodeMessage() returns (r: Decode<Message>)
      modifies this
      ensures r == MessageAt(old(unread))
      ensures r.Decoded? ==> unread == r.rest
    {
      var outer := ReadFramed();
      if !outer.Value? {
        return if outer.Overlong? then Panicked else Undecodable;
      }
      var inner := new Reader(outer.value);
      var operation := inner.ReadFramed();
      if !operation.Value? {
        return if operation.Overlong? then Panicked else Undecodable;
      }
      var arguments: seq<Bytes> := [];
      PrependTwice([], [], ReadLVs(operation.rest));
      while true
        invariant fresh(inner) && unread == outer.rest
        invariant ReadLVs(operation.rest) == Prepend(arguments, ReadLVs(inner.unread))
        decreases |inner.unread|
      {
        var arg := inner.ReadFramed();
        if arg.End? {
          break;
        }
        if !arg.Value? {
          return if arg.Overlong? then Panicked else Undecodable;
        }
        PrependTwice(arguments, [arg.value], ReadLVs(arg.rest));
        arguments := arguments + [arg.value];
      }
      assert ReadLVs(operation.rest) == Done(arguments + []) && arguments + [] == arguments;
      return Decoded(Message(operation.value, arguments), unread);
    }

    method DecodeResponse() returns (r: Decode<Response>)
      modifies this
      ensures r == ResponseAt(old(unread))
      ensures r.Decoded? ==> unread == r.rest
    {
      var content := ReadFramed();
      if !content.Value? {
        return if content.Overlong? then Panicked else Undecodable;
      }
      var colon := IndexByte(content.value, COLON);
      if colon.None? {
        return Undecodable;
      }
      r := Decoded(Response(content.value[..colon.value], content.value[colon.value + 1..]), unread);
    }
  }

  // ---------------------------------------------------------------- round trips

  /** The length before the first colon is beyond all buffers. */
  predicate TooBig(s: Bytes)
  {
    var colon := IndexByte(s, COLON);
    colon.Some? && Atoi(s[..colon.value]).Some? && Atoi(s[..colon.value]).value > MAX_ALLOC
  }

  /** What is left when framed values are taken off until there is none. */
  function Stuck(s: Bytes): Bytes
    decreases |s|
  {
    match ReadLV(s)
    case Value(_, rest) => Stuck(rest)
    case _ => s
  }

  lemma {:induction false} ValuesPanicExactly(s: Bytes)
    ensures ReadLVs(s).Crashed? <==> TooBig(Stuck(s))
    decreases |s|
  {
    if ReadLV(s).Value? {
      ValuesPanicExactly(ReadLV(s).rest);
    }
  }

  /** A frame that is too big, or whole and stuck at a value that is too big. */
  predicate BadFrame(s: Bytes)
  {
    TooBig(s) || (ReadLV(s).Value? && TooBig(Stuck(ReadLV(s).value)))
  }

  /** Decoding a message panics exactly then. */
  lemma MessagePanicsExactly(s: Bytes)
    ensures MessageAt(s).Panicked? <==> BadFrame(s)
  {
    if ReadLV(s).Value? && ReadLV(ReadLV(s).value).Value? {
      ValuesPanicExactly(ReadLV(ReadLV(s).value).rest);
    }
  }

  /** A frame that announces more than any buffer holds panics, whatever follows. */
  lemma OverlongFramePanics(n: nat, rest: Bytes)
    requires MAX_ALLOC < n <= MAX_INT
    ensures MessageAt(Decimal(n) + [COLON] + rest) == Panicked
    ensures ResponseAt(Decimal(n) + [COLON] + rest) == Panicked
  {
    var d := Decimal(n);
    var s := d + [COLON] + rest;
    forall k | 0 <= k < |d| ensures s[k] != COLON {
      DecimalDigit(n, k);
      assert s[k] == d[k];
    }
    IndexByteAt(s, COLON, |d|);
    AtoiOfDecimal(n);
    assert s[..|d|] == d;
  }

  lemma ReadsFramed(v: Bytes, rest: Bytes)
    requires |v| <= MAX_ALLOC
    ensures ReadLV(LV(v) + rest) == Value(v, rest)
  {
    var d := Decimal(|v|);
    var s := LV(v) + rest;
    LVColon(v, rest);
    AtoiOfDecimal(|v|);
    assert s[..|d|] == d;
    var body := s[|d| + 1..];
    assert body == v + rest;
    assert body[..|v|] == v && body[|v|..] == rest;
  }

  /** A framed value is at least as long as the value. */
  predicate Fits(vs: seq<Bytes>)
  {
    forall i :: 0 <= i < |vs| ==> |vs[i]| <= MAX_ALLOC
  }

  lemma {:induction false} LVsFit(vs: seq<Bytes>)
    requires |LVs(vs)| <= MAX_ALLOC
    ensures Fits(vs)
  {
    if vs != [] {
      assert |LVs(vs)| == |LV(vs[0])| + |LVs(vs[1..])|;
      LVsFit(vs[1..]);
      assert forall i :: 0 < i < |vs| ==> vs[i] == vs[1..][i - 1];
    }
  }

  lemma {:induction false} NoColon(s: Bytes)
    requires COLON !in s
    ensures IndexByte(s, COLON) == None
  {
    if s != [] {
      NoColon(s[1..]);
    }
  }

  /** Behind framed values, what follows is read as further values. */
  lemma {:induction false} ReadsOn(vs: seq<Bytes>, junk: Bytes)
    requires Fits(vs)
    ensures ReadLVs(LVs(vs) + junk) == Prepend(vs, ReadLVs(junk))
  {
    if vs == [] {
      assert LVs(vs) + junk == junk;
      PrependTwice([], [], ReadLVs(junk));
    } else {
      Regroup(LV(vs[0]), LVs(vs[1..]), junk);
      ReadsFramed(vs[0], LVs(vs[1..]) + junk);
      ReadsOn(vs[1..], junk);
      PrependTwice([vs[0]], vs[1..], ReadLVs(junk));
      assert vs == [vs[0]] + vs[1..];
    }
  }

  lemma NothingRead(junk: Bytes)
    ensures ReadLVs(junk) == Done([]) <==> COLON !in junk
  {
    if COLON in junk {
      var k :| 0 <= k < |junk| && junk[k] == COLON;
      FirstColon(junk, k);
      if ReadLV(junk).Value? && ReadLVs(ReadLV(junk).rest).Done? {
        assert |ReadLVs(junk).value| >= 1;
      }
    } else {
      NoColon(junk);
    }
  }

  /** What the decoder does not notice behind the last argument: exactly the bytes
      without a colon. */
  lemma TrailingBytesExactly(m: Message, junk: Bytes, rest: Bytes)
    requires |LV(LVs([m.operation] + m.arguments) + junk)| <= MAX_ALLOC
    ensures MessageAt(LV(LVs([m.operation] + m.arguments) + junk) + rest) == Decoded(m, rest) <==> COLON !in junk
  {
    var vs := [m.operation] + m.arguments;
    var outer := LVs(vs) + junk;
    ReadsFramed(outer, rest);
    LVsFit(vs);
    assert vs[0] == m.operation && vs[1..] == m.arguments;
    Regroup(LV(m.operation), LVs(m.arguments), junk);
    ReadsFramed(m.operation, LVs(m.arguments) + junk);
    assert Fits(m.arguments) by {
      assert forall i :: 0 <= i < |m.arguments| ==> m.arguments[i] == vs[i + 1];
    }
    ReadsOn(m.arguments, junk);
    NothingRead(junk);
    if ReadLVs(junk).Done? {
      assert m.arguments + ReadLVs(junk).value == m.arguments <==> |ReadLVs(junk).value| == 0;
    }
  }

  /** Decoding an encoded message gives that message back, empty operation and empty
      arguments included, and consumes exactly its bytes. */
  lemma MessageRoundTrip(m: Message, rest: Bytes)
    requires |EncodedMessage(m)| <= MAX_ALLOC
    ensures MessageAt(EncodedMessage(m) + rest) == Decoded(m, rest)
  {
    assert LVs([m.operation] + m.arguments) + [] == LVs([m.operation] + m.arguments);
    TrailingBytesExactly(m, [], rest);
  }

  function EncodedMessages(ms: seq<Message>): Bytes
  {
    if ms == [] then [] else EncodedMessage(ms[0]) + EncodedMessages(ms[1..])
  }

  /** All messages of a stream, up to the first bytes that are none. */
  function MessagesIn(s: Bytes): seq<Message>
    decreases |s|
  {
    match MessageAt(s)
    case Decoded(m, rest) => [m] + MessagesIn(rest)
    case _ => []
  }

  lemma MessagesCons(m: Message, rest: Bytes)
    requires |EncodedMessage(m)| <= MAX_ALLOC
    ensures MessagesIn(EncodedMessage(m) + rest) == [m] + MessagesIn(rest)
  {
    MessageRoundTrip(m, rest);
  }

  /** A stream of encoded messages decodes to the same messages. */
  lemma {:induction false} StreamRoundTrip(ms: seq<Message>)
    requires forall i :: 0 <= i < |ms| ==> |EncodedMessage(ms[i])| <= MAX_ALLOC
    ensures MessagesIn(EncodedMessages(ms)) == ms
  {
    if ms != [] {
      MessagesCons(ms[0], EncodedMessages(ms[1..]));
      StreamRoundTrip(ms[1..]);
    }
  }

  /** A response survives exactly when its code holds no colon. */
  lemma ResponseRoundTripExactly(r: Response, rest: Bytes)
    requires |EncodedResponse(r)| <= MAX_ALLOC
    ensures ResponseAt(EncodedResponse(r) + rest) == Decoded(r, rest) <==> COLON !in r.code
  {
    var content := r.code + [COLON] + r.message;
    ReadsFramed(content, rest);
    if COLON in r.code {
      var k :| 0 <= k < |r.code| && r.code[k] == COLON;
      FirstColon(content, k);
    } else {
      assert forall k :: 0 <= k < |r.code| ==> content[k] == r.code[k];
      IndexByteAt(content, COLON, |r.code|);
      assert content[..|r.code|] == r.code && content[|r.code| + 1..] == r.message;
    }
  }

  lemma {:induction false} FirstColon(s: Bytes, k: nat)
    requires k < |s| && s[k] == COLON
    ensures IndexByte(s, COLON).Some? && IndexByte(s, COLON).value <= k
  {
    if k > 0 && s[0] != COLON {
      FirstColon(s[1..], k - 1);
    }
  }

  // --------------------------------------------------------- what decodes at all

  /** The text is a frame: a numeral for the value's length, a colon, the value, and more. */
  predicate Frame(s: Bytes, numeral: Bytes, v: Bytes, rest: Bytes)
  {
    s == numeral + [COLON] + v + rest && COLON !in numeral && Atoi(numeral) == Some(|v|) && |v| <= 0x1_0000_0000_0000
  }

  lemma FrameReads(s: Bytes, numeral: Bytes, v: Bytes, rest: Bytes)
    requires Frame(s, numeral, v, rest)
    ensures ReadLV(s) == Value(v, rest)
  {
    var i := |numeral|;
    assert forall k :: 0 <= k < i ==> s[k] == numeral[k];
    IndexByteAt(s, COLON, i);
    assert s[..i] == numeral && s[i + 1..] == v + rest;
    assert (v + rest)[..|v|] == v && (v + rest)[|v|..] == rest;
  }

  lemma {:induction false} FirstIsFirst(s: Bytes, c: byte)
    requires IndexByte(s, c).Some?
    ensures c !in s[..IndexByte(s, c).value]
  {
    if s[0] != c {
      FirstIsFirst(s[1..], c);
      var i := IndexByte(s, c).value;
      assert s[..i] == [s[0]] + s[1..][..i - 1];
    }
  }

  lemma ReadIsFrame(s: Bytes) returns (numeral: Bytes)
    requires ReadLV(s).Value?
    ensures Frame(s, numeral, ReadLV(s).value, ReadLV(s).rest)
  {
    var i := IndexByte(s, COLON).value;
    numeral := s[..i];
    FirstIsFirst(s, COLON);
    IndexByteFound(s, COLON);
    var body, n := s[i + 1..], Atoi(numeral).value;
    assert body == body[..n] + body[n..];
    assert s == numeral + [COLON] + body;
  }

  /** A framed value is read exactly from a frame, whatever numeral it uses. */
  lemma ReadsExactly(s: Bytes, v: Bytes, rest: Bytes)
    ensures ReadLV(s) == Value(v, rest) <==> exists numeral :: Frame(s, numeral, v, rest)
  {
    if ReadLV(s) == Value(v, rest) {
      var numeral := ReadIsFrame(s);
    }
    if numeral :| Frame(s, numeral, v, rest) {
      FrameReads(s, numeral, v, rest);
    }
  }

  /** The text is frames of the values, and behind them bytes without a colon. */
  ghost predicate Values(s: Bytes, vs: seq<Bytes>)
    decreases |vs|
  {
    if vs == [] then COLON !in s
    else exists numeral, rest :: Frame(s, numeral, vs[0], rest) && Values(rest, vs[1..])
  }

  lemma {:induction false} ValuesExactly(s: Bytes, vs: seq<Bytes>)
    ensures ReadLVs(s) == Done(vs) <==> Values(s, vs)
    decreases |vs|
  {
    if vs == [] {
      NothingRead(s);
    } else {
      if ReadLVs(s) == Done(vs) {
        var rest := ReadLV(s).rest;
        var numeral := ReadIsFrame(s);
        assert ReadLVs(s).value == [ReadLV(s).value] + ReadLVs(rest).value;
        assert ReadLVs(rest) == Done(vs[1..]);
        ValuesExactly(rest, vs[1..]);
      }
      if Values(s, vs) {
        var numeral, rest :| Frame(s, numeral, vs[0], rest) && Values(rest, vs[1..]);
        FrameReads(s, numeral, vs[0], rest);
        ValuesExactly(rest, vs[1..]);
        assert vs == [vs[0]] + vs[1..];
      }
    }
  }

  /** The text starts with a frame around frames of the operation and the arguments. */
  ghost predicate MessageFrame(s: Bytes, m: Message, rest: Bytes)
  {
    exists outer, inner, numeral, numeral' ::
      Frame(s, numeral, outer, rest) && Frame(outer, numeral', m.operation, inner) && Values(inner, m.arguments)
  }

  /** A message is decoded exactly from such a text. */
  lemma DecodesExactly(s: Bytes, m: Message, rest: Bytes)
    ensures MessageAt(s) == Decoded(m, rest) <==> MessageFrame(s, m, rest)
  {
    if MessageAt(s) == Decoded(m, rest) {
      var outer := ReadLV(s).value;
      var numeral := ReadIsFrame(s);
      var numeral' := ReadIsFrame(outer);
      ValuesExactly(ReadLV(outer).rest, m.arguments);
    }
    if MessageFrame(s, m, rest) {
      var outer, inner, numeral, numeral' :|
        Frame(s, numeral, outer, rest) && Frame(outer, numeral', m.operation, inner) && Values(inner, m.arguments);
      FrameReads(s, numeral, outer, rest);
      FrameReads(outer, numeral', m.operation, inner);
      ValuesExactly(inner, m.arguments);
    }
  }

  /** A response is decoded exactly from a frame around its code, a colon and its text. */
  lemma ResponsesExactly(s: Bytes, r: Response, rest: Bytes)
    ensures ResponseAt(s) == Decoded(r, rest) <==>
            COLON !in r.code && exists numeral :: Frame(s, numeral, r.code + [COLON] + r.message, rest)
  {
    var content := r.code + [COLON] + r.message;
    if ResponseAt(s) == Decoded(r, rest) {
      var numeral := ReadIsFrame(s);
      var c := ReadLV(s).value;
      FirstIsFirst(c, COLON);
      IndexByteFound(c, COLON);
      assert c == content;
    }
    if COLON !in r.code && exists numeral :: Frame(s, numeral, content, rest) {
      var numeral :| Frame(s, numeral, content, rest);
      FrameReads(s, numeral, content, rest);
      assert forall k :: 0 <= k < |r.code| ==> content[k] == r.code[k];
      IndexByteAt(content, COLON, |r.code|);
      assert content[..|r.code|] == r.code && content[|r.code| + 1..] == r.message;
    }
  }

  lemma CodeWords()
    ensures CODE_OK == Ascii("200") && CODE_BYE == Ascii("203") && CODE_DENIED == Ascii("400")
    ensures CODE_ERROR == Ascii("500") && CODE_UNKNOWN == Ascii("501")
  {
  }
}

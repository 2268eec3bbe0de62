/** Whole connections: what a server answers to a stream of messages, and that clients
    see a plain list of rules behind the wire format, the parser and the index. */
module Sessions {

  import opened Wrappers
  import opened ByteStrings
  import opened Elements
  import opened Parsing
  import opened Engines
  import opened EngineProofs
  import opened Protocol
  import opened TextFiles
  import opened Servers

  const TEXT_PROTOCOL_ERROR: Bytes := [80, 114, 111, 116, 111, 99, 111, 108, 32, 101, 114, 114, 111, 114]
  const PROTOCOL_ERROR := Response(CODE_ERROR, TEXT_PROTOCOL_ERROR)

  // ------------------------------------------------------------------ connections

  datatype Served = Served(output: Bytes, state: ServerState, up: bool)

  /** A connection's stream handled to its end. `disks` gives the rule files as the n-th
      message finds them. The end of the stream is answered like any undecodable bytes,
      because the error's text is never plain "EOF". */
  function Serve(s: ServerState, input: Bytes, disks: nat -> Disk, n: nat): Served
    decreases |input|
  {
    match MessageAt(input)
    case Undecodable => Served(EncodedResponse(PROTOCOL_ERROR), s, true)
    case Panicked => Served([], s, false)
    case Decoded(m, rest) =>
      match HandledMessage(s, m, disks(n))
      case Done((response, after)) =>
        if m.operation == LOGOUT then Served(EncodedResponse(response), after, true)
        else
          var tail := Serve(after, rest, disks, n + 1);
          tail.(output := EncodedResponse(response) + tail.output)
      case _ => Served([], s, false)
  }

  method HandleConnection(server: Server, input: Bytes, disks: nat -> Disk) returns (output: Bytes, up: bool)
    modifies server, server.engine
    ensures var served := Serve(old(server.Now()), input, disks, 0);
            output == served.output && up == served.up && (up ==> server.Now() == served.state)
  {
    var reader := new Reader(input);
    output := [];
    var n: nat := 0;
    ghost var whole := Serve(server.Now(), input, disks, 0);
    while true
      invariant fresh(reader)
      invariant server.engine == old(server.engine) || fresh(server.engine)
      invariant var tail := Serve(server.Now(), reader.unread, disks, n);
                whole == tail.(output := output + tail.output)
      decreases |reader.unread|
    {
      var m := reader.DecodeMessage();
      if m.Undecodable? {
        return output + EncodedResponse(PROTOCOL_ERROR), true;
      }
      if m.Panicked? {
        assert output + [] == output;
        return output, false;
      }
      var response := server.HandleMessage(m.value, disks(n));
      if !response.Done? {
        assert output + [] == output;
        return output, false;
      }
      if m.value.operation == LOGOUT {
        return output + EncodedResponse(response.value), true;
      }
      Regroup(output, EncodedResponse(response.value), Serve(server.Now(), m.rest, disks, n + 1).output);
      output := output + EncodedResponse(response.value);
      n := n + 1;
    }
  }

  // ----------------------------------------------------------------- one exchange

  /** Client.Query's reading of a response. */
  function ClientAnswer(r: Decode<Response>): Outcome<bool>
  {
    match r
    case Undecodable => Failed
    case Panicked => Crashed
    case Decoded(response, _) =>
      if response.code == CODE_OK then Done(true)
      else if response.code == CODE_DENIED then Done(false)
      else Failed
  }

  function QueryMessage(query: Element): Message
  {
    Message(QUERY, [Canonical(query)])
  }

  lemma {:induction false} DecimalSmall(n: nat)
    ensures |Decimal(n)| <= n + 1
  {
    if n >= 10 {
      DecimalSmall(n / 10);
    }
  }

  /** Short, and without a colon in its code. */
  predicate Deliverable(r: Response)
  {
    COLON !in r.code && |r.code| + |r.message| <= 1000
  }

  /** Such a response reaches the client as it is. */
  lemma ResponseArrives(r: Response, rest: Bytes)
    requires Deliverable(r)
    ensures ResponseAt(EncodedResponse(r) + rest) == Decoded(r, rest)
  {
    DecimalSmall(|r.code + [COLON] + r.message|);
    ResponseRoundTripExactly(r, rest);
  }

  lemma MessageParts(m: Message)
    requires |EncodedMessage(m)| <= MAX_ALLOC
    ensures forall i :: 0 <= i < |m.arguments| ==> |m.arguments[i]| <= MAX_ALLOC
  {
    var vs := [m.operation] + m.arguments;
    LVsFit(vs);
    assert forall i :: 0 <= i < |m.arguments| ==> m.arguments[i] == vs[i + 1];
  }

  /** The server's answer to an arriving query is the engine's answer to the query as
      its text reads. */
  lemma QueryArrives(s: ServerState, query: Element, disk: Disk)
    requires |EncodedMessage(QueryMessage(query))| <= MAX_ALLOC
    ensures match Answer(s.engine, Demote(query))
            case Done(b) =>
              && HandledMessage(s, QueryMessage(query), disk).Done?
              && var (response, after) := HandledMessage(s, QueryMessage(query), disk).value;
                 response == (if b then Response(CODE_OK, TEXT_OK) else Response(CODE_DENIED, TEXT_DENIED)) &&
                 after.engine == s.engine
            case _ => HandledMessage(s, QueryMessage(query), disk) == Crashed
  {
    MessageParts(QueryMessage(query));
    assert QueryMessage(query).arguments[0] == Canonical(query);
    PrintedReadsDemoted(query, []);
    assert Canonical(query) + [] == Canonical(query);
    AnswerNeverFails(s.engine, Demote(query));
  }

  lemma {:induction false} ScanNeverFails(rules: seq<Element>, query: Element, positions: seq<nat>)
    ensures ScanAt(rules, query, positions) != Failed
  {
    if positions != [] {
      ScanNeverFails(rules, query, positions[1..]);
    }
  }

  lemma AnswerNeverFails(s: State, query: Element)
    ensures Answer(s, query) != Failed
  {
    ScanNeverFails(s.rules, query, Candidates(s, query));
  }

  /** The client's half before the server: sendMessage writes this. */
  method SendQuery(query: Element) returns (sent: Bytes)
    ensures sent == EncodedMessage(QueryMessage(query))
  {
    var text := String(query);
    sent := EncodeMessage(Message(QUERY, [text]));
  }

  /** The client's half behind the server. */
  method ReceiveAnswer(reply: Bytes) returns (r: Outcome<bool>)
    ensures r == ClientAnswer(ResponseAt(reply))
  {
    var reader := new Reader(reply);
    var response := reader.DecodeResponse();
    r := ClientAnswer(response);
  }

  lemma AnswerArrives(b: bool)
    ensures ClientAnswer(ResponseAt(EncodedResponse(
              if b then Response(CODE_OK, TEXT_OK) else Response(CODE_DENIED, TEXT_DENIED)))) == Done(b)
  {
    var r := if b then Response(CODE_OK, TEXT_OK) else Response(CODE_DENIED, TEXT_DENIED);
    ResponseArrives(r, []);
    assert EncodedResponse(r) + [] == EncodedResponse(r);
    assert CODE_OK[0] != CODE_DENIED[0];
  }

  /** End to end: printed, framed, decoded, parsed, answered, framed and decoded again,
      a query gets the answer the engine gives to its demotion, which for a simple query
      is the query itself. */
  method QueryOverTheWire(server: Server, query: Element, disk: Disk) returns (r: Outcome<bool>)
    requires |EncodedMessage(QueryMessage(query))| <= MAX_ALLOC
    modifies server, server.engine
    ensures r == Answer(old(server.engine.Now()), Demote(query))
    ensures StarFree(query) ==> r == Answer(old(server.engine.Now()), query)
  {
    ghost var before := server.Now();
    var sent := SendQuery(query);
    var request := new Reader(sent);
    MessageRoundTrip(QueryMessage(query), []);
    assert sent + [] == sent;
    var m := request.DecodeMessage();
    QueryArrives(before, query, disk);
    AnswerNeverFails(before.engine, Demote(query));
    DemoteFixpoint(query);
    var response := server.HandleMessage(m.value, disk);
    if response.Done? {
      AnswerArrives(Answer(before.engine, Demote(query)).value);
      r := ReceiveAnswer(EncodedResponse(response.value));
    } else {
      r := Crashed;
    }
  }

  // ---------------------------------------------------- sessions refine a rule book

  datatype Request = QueryRequest(query: Element) | AddRequest(rule: Element) | ReloadRequest

  function MessageOf(r: Request): Message
  {
    match r
    case QueryRequest(query) => QueryMessage(query)
    case AddRequest(rule) => Message(ADD, [Canonical(rule)])
    case ReloadRequest => Message(RELOAD, [])
  }

  function MessagesOf(requests: seq<Request>): seq<Message>
  {
    seq(|requests|, i requires 0 <= i < |requests| => MessageOf(requests[i]))
  }

  function Verdict(granted: bool): Response
  {
    if granted then Response(CODE_OK, TEXT_OK) else Response(CODE_DENIED, TEXT_DENIED)
  }

  /** What a client expects of a rule book. */
  function Expected(book: RuleBook, request: Request, disk: Disk): (Response, RuleBook)
  {
    match request
    case QueryRequest(query) => (Verdict(Grants(book, Demote(query))), book)
    case AddRequest(rule) => (Response(CODE_OK, TEXT_OK), book.(rules := book.rules + [Demote(rule)]))
    case ReloadRequest =>
      match DiskRules(disk)
      case Done(loaded) => (Response(CODE_OK, TEXT_RELOADED), RuleBook(loaded, true))
      case _ => (Response(CODE_ERROR, TEXT_RELOAD_FAILED), book)
  }

  function ExpectedAll(book: RuleBook, requests: seq<Request>, disks: nat -> Disk, n: nat): (seq<Response>, RuleBook)
    decreases |requests|
  {
    if requests == [] then ([], book)
    else
      var (response, after) := Expected(book, requests[0], disks(n));
      var (responses, final) := ExpectedAll(after, requests[1..], disks, n + 1);
      ([response] + responses, final)
  }

  function EncodedResponses(rs: seq<Response>): Bytes
  {
    if rs == [] then [] else EncodedResponse(rs[0]) + EncodedResponses(rs[1..])
  }

  /** All responses of a stream. */
  function ResponsesIn(s: Bytes): seq<Response>
    decreases |s|
  {
    match ResponseAt(s)
    case Decoded(r, rest) => [r] + ResponsesIn(rest)
    case _ => []
  }

  lemma AddArrives(s: ServerState, rule: Element, disk: Disk)
    requires |EncodedMessage(MessageOf(AddRequest(rule)))| <= MAX_ALLOC
    ensures var r := HandledMessage(s, MessageOf(AddRequest(rule)), disk);
            r.Done? && r.value.0 == Response(CODE_OK, TEXT_OK) && r.value.1.engine == Add(s.engine, Demote(rule))
  {
    MessageParts(MessageOf(AddRequest(rule)));
    assert MessageOf(AddRequest(rule)).arguments[0] == Canonical(rule);
    PrintedReadsDemoted(rule, []);
    assert Canonical(rule) + [] == Canonical(rule);
  }

  /** Additions and reloads keep an index in order, whatever the rules. */
  lemma HandledKeepsOrder(s: ServerState, m: Message, disk: Disk)
    requires InOrder(s.engine) && HandledMessage(s, m, disk).Done?
    ensures InOrder(HandledMessage(s, m, disk).value.1.engine)
  {
    if m.operation == ADD && |m.arguments| == 1 && ParseText(m.arguments[0]).Parsed? && s.engine.indexEnabled {
      IndexLastKeeps(s.engine, ParseText(m.arguments[0]).value);
    }
    if m.operation == RELOAD && DiskRules(disk).Done? {
      AddAllKeeps(New(true), DiskRules(disk).value);
    }
  }

  lemma StepRefines(s: ServerState, request: Request, disk: Disk)
    requires InOrder(s.engine) && !BadDisk(disk)
    requires |EncodedMessage(MessageOf(request))| <= MAX_ALLOC
    ensures var r := HandledMessage(s, MessageOf(request), disk);
            && r.Done?
            && (r.value.0, BookOf(r.value.1.engine)) == Expected(BookOf(s.engine), request, disk)
            && InOrder(r.value.1.engine) && Deliverable(r.value.0)
  {
    match request
    case QueryRequest(query) =>
      QueryArrives(s, query, disk);
      AnswersByBook(s.engine, Demote(query));
    case AddRequest(rule) =>
      AddArrives(s, rule, disk);
      HandledKeepsOrder(s, MessageOf(request), disk);
    case ReloadRequest =>
      DiskPanicsExactly(disk);
      HandledKeepsOrder(s, MessageOf(request), disk);
      if DiskRules(disk).Done? {
        AddAllRules(New(true), DiskRules(disk).value);
        assert [] + DiskRules(disk).value == DiskRules(disk).value;
      }
  }

  /** The connection stayed up, its server is in order and holds the expected book, and
      the client decodes the expected responses, with one error behind the last. */
  ghost predicate Refines(served: Served, expected: (seq<Response>, RuleBook))
  {
    && served.up && InOrder(served.state.engine)
    && BookOf(served.state.engine) == expected.1
    && served.output == EncodedResponses(expected.0) + EncodedResponse(PROTOCOL_ERROR)
    && ResponsesIn(served.output) == expected.0 + [PROTOCOL_ERROR]
  }

  /** No message is too long for a buffer. */
  ghost predicate Sendable(requests: seq<Request>)
  {
    forall i :: 0 <= i < |requests| ==> |EncodedMessage(MessageOf(requests[i]))| <= MAX_ALLOC
  }

  ghost predicate Calm(disks: nat -> Disk)
  {
    forall k :: !BadDisk(disks(k))
  }

  /** Over every session of queries, additions and reloads with any engine in order, the
      server answers as the engine's rule book does, and holds exactly that book in the
      end. Bytes behind the last request that are no message change nothing. */
  lemma {:induction false} SessionRefines(
    s: ServerState, requests: seq<Request>, junk: Bytes, disks: nat -> Disk, n: nat)
    requires InOrder(s.engine) && Calm(disks) && Sendable(requests) && MessageAt(junk).Undecodable?
    ensures Refines(Serve(s, EncodedMessages(MessagesOf(requests)) + junk, disks, n),
                    ExpectedAll(BookOf(s.engine), requests, disks, n))
    decreases |requests|
  {
    if requests == [] {
      assert EncodedMessages(MessagesOf(requests)) + junk == junk;
      EndOfSession(s, junk, disks, n);
    } else {
      var tail := EncodedMessages(MessagesOf(requests[1..])) + junk;
      assert MessagesOf(requests)[1..] == MessagesOf(requests[1..]);
      Regroup(EncodedMessage(MessageOf(requests[0])), EncodedMessages(MessagesOf(requests[1..])), junk);
      assert EncodedMessages(MessagesOf(requests)) + junk == EncodedMessage(MessageOf(requests[0])) + tail;
      assert forall i :: 0 <= i < |requests[1..]| ==> requests[1..][i] == requests[i + 1];
      var response, after := ServeStep(s, requests[0], tail, disks, n);
      SessionRefines(after, requests[1..], junk, disks, n + 1);
      var expected := ExpectedAll(BookOf(after.engine), requests[1..], disks, n + 1);
      RefinesCons(response, Serve(after, tail, disks, n + 1), expected);
    }
  }

  lemma EndOfSession(s: ServerState, junk: Bytes, disks: nat -> Disk, n: nat)
    requires InOrder(s.engine) && MessageAt(junk).Undecodable?
    ensures Refines(Serve(s, junk, disks, n), ([], BookOf(s.engine)))
  {
    var error := EncodedResponse(PROTOCOL_ERROR);
    assert [] + error == error && error + [] == error;
    ResponseArrives(PROTOCOL_ERROR, []);
    assert ResponsesIn([]) == [];
  }

  lemma ServeStep(s: ServerState, request: Request, tail: Bytes, disks: nat -> Disk, n: nat)
    returns (response: Response, after: ServerState)
    requires InOrder(s.engine) && !BadDisk(disks(n))
    requires |EncodedMessage(MessageOf(request))| <= MAX_ALLOC
    ensures (response, BookOf(after.engine)) == Expected(BookOf(s.engine), request, disks(n))
    ensures InOrder(after.engine) && Deliverable(response)
    ensures var rest := Serve(after, tail, disks, n + 1);
            Serve(s, EncodedMessage(MessageOf(request)) + tail, disks, n) ==
            Served(EncodedResponse(response) + rest.output, rest.state, rest.up)
  {
    StepRefines(s, request, disks(n));
    var handled := HandledMessage(s, MessageOf(request), disks(n)).value;
    response, after := handled.0, handled.1;
    MessageRoundTrip(MessageOf(request), tail);
    assert QUERY[0] != LOGOUT[0] && ADD[0] != LOGOUT[0] && RELOAD[0] != LOGOUT[0];
  }

  lemma RefinesCons(r: Response, rest: Served, expected: (seq<Response>, RuleBook))
    requires Deliverable(r) && Refines(rest, expected)
    ensures Refines(Served(EncodedResponse(r) + rest.output, rest.state, rest.up), ([r] + expected.0, expected.1))
  {
    var rs, error := expected.0, EncodedResponse(PROTOCOL_ERROR);
    assert ([r] + rs)[1..] == rs;
    Regroup(EncodedResponse(r), EncodedResponses(rs), error);
    ResponseArrives(r, rest.output);
    assert [r] + (rs + [PROTOCOL_ERROR]) == [r] + rs + [PROTOCOL_ERROR];
  }

  // ------------------------------------------------- where a linear scan is enough

  /** The same expectation by a linear scan over all rules. */
  function Scanned(rules: seq<Element>, request: Request, disk: Disk): (Response, seq<Element>)
  {
    match request
    case QueryRequest(query) => (Verdict(Authorized(rules, Demote(query))), rules)
    case AddRequest(rule) => (Response(CODE_OK, TEXT_OK), rules + [Demote(rule)])
    case ReloadRequest =>
      match DiskRules(disk)
      case Done(loaded) => (Response(CODE_OK, TEXT_RELOADED), loaded)
      case _ => (Response(CODE_ERROR, TEXT_RELOAD_FAILED), rules)
  }

  function ScannedAll(rules: seq<Element>, requests: seq<Request>, disks: nat -> Disk, n: nat)
    : (seq<Response>, seq<Element>)
    decreases |requests|
  {
    if requests == [] then ([], rules)
    else
      var (response, after) := Scanned(rules, requests[0], disks(n));
      var (responses, final) := ScannedAll(after, requests[1..], disks, n + 1);
      ([response] + responses, final)
  }

  lemma {:induction false} SimpleFiles(files: seq<Bytes>)
    requires FileRules(files).Done?
    ensures Simple(FileRules(files).value)
  {
    if files != [] {
      LoadedIsSimple(files[0], DEFAULTS, []);
      SimpleFiles(files[1..]);
    }
  }

  /** Rules that came in as text hide nothing. */
  lemma SimpleHidesNothing(book: RuleBook)
    requires Simple(book.rules)
    ensures NothingHidden(book)
  {
    forall i | 0 <= i < |book.rules| ensures !CoversLists(book.rules[i]) {
      assert StarFree(book.rules[i]);
    }
  }

  lemma ExpectedByScan(book: RuleBook, request: Request, disk: Disk)
    requires NothingHidden(book)
    ensures var (response, after) := Expected(book, request, disk);
            (response, after.rules) == Scanned(book.rules, request, disk) && NothingHidden(after)
  {
    match request
    case QueryRequest(query) =>
      assert StarFree(Demote(query));
      GrantsByScan(book, Demote(query));
    case AddRequest(rule) =>
      assert StarFree(Demote(rule));
    case ReloadRequest =>
      if DiskRules(disk).Done? {
        SimpleFiles(disk.value);
        SimpleHidesNothing(RuleBook(DiskRules(disk).value, true));
      }
  }

  /** A session that starts with no rule hidden by its kind is answered by a linear scan
      over a list of rules. */
  lemma {:induction false} SessionScans(book: RuleBook, requests: seq<Request>, disks: nat -> Disk, n: nat)
    requires NothingHidden(book)
    ensures var (responses, final) := ExpectedAll(book, requests, disks, n);
            (responses, final.rules) == ScannedAll(book.rules, requests, disks, n)
    decreases |requests|
  {
    if requests != [] {
      ExpectedByScan(book, requests[0], disks(n));
      SessionScans(Expected(book, requests[0], disks(n)).1, requests[1..], disks, n + 1);
    }
  }

  // ------------------------------------------------------- what brings a server down

  /** A message that ends the server: one argument that makes the parser panic, or a
      reload from such a file. */
  ghost predicate Fatal(m: Message, disk: Disk)
  {
    || (m.operation in {QUERY, ADD} && |m.arguments| == 1 && BadText(m.arguments[0]))
    || (m.operation == RELOAD && BadDisk(disk))
  }

  lemma DiskPanicsExactly(disk: Disk)
    ensures DiskRules(disk).Crashed? <==> BadDisk(disk)
  {
    if disk.Some? {
      FilesPanicExactly(disk.value);
    }
  }

  /** With an engine in order nothing else does, whatever the rules. */
  lemma CrashesExactly(s: ServerState, m: Message, disk: Disk)
    requires InOrder(s.engine)
    ensures HandledMessage(s, m, disk).Crashed? <==> Fatal(m, disk)
    ensures HandledMessage(s, m, disk) != Failed
  {
    assert QUERY[0] != ADD[0] && QUERY[0] != RELOAD[0] && ADD[0] != RELOAD[0];
    assert LOGOUT[0] != QUERY[0] && LOGOUT[0] != ADD[0] && LOGOUT[0] != RELOAD[0];
    if |m.arguments| == 1 {
      TextPanicsExactly(m.arguments[0]);
      if ParseText(m.arguments[0]).Parsed? {
        AnswersByBook(s.engine, ParseText(m.arguments[0]).value);
      }
    }
    DiskPanicsExactly(disk);
  }

  /** What a stream holds behind its last message. */
  function Remainder(s: Bytes): Bytes
    decreases |s|
  {
    match MessageAt(s)
    case Decoded(_, rest) => Remainder(rest)
    case _ => s
  }

  predicate NoLogout(ms: seq<Message>)
  {
    forall i :: 0 <= i < |ms| ==> ms[i].operation != LOGOUT
  }

  /** The k-th message is fatal and no logout comes before it. */
  ghost predicate FatalAt(ms: seq<Message>, disks: nat -> Disk, n: nat, k: nat)
  {
    k < |ms| && Fatal(ms[k], disks(n + k)) && NoLogout(ms[..k])
  }

  ghost predicate AnyFatal(ms: seq<Message>, disks: nat -> Disk, n: nat)
  {
    exists k: nat :: FatalAt(ms, disks, n, k)
  }

  ghost predicate BringsDown(input: Bytes, disks: nat -> Disk, n: nat)
  {
    || AnyFatal(MessagesIn(input), disks, n)
    || (NoLogout(MessagesIn(input)) && BadFrame(Remainder(input)))
  }

  lemma NoLogoutCons(m: Message, tail: seq<Message>)
    ensures NoLogout([m] + tail) <==> m.operation != LOGOUT && NoLogout(tail)
  {
    var ms := [m] + tail;
    assert ms[0] == m;
    assert forall i :: 0 <= i < |tail| ==> tail[i] == ms[i + 1];
  }

  lemma FatalShift(m: Message, tail: seq<Message>, disks: nat -> Disk, n: nat, k: nat)
    ensures FatalAt([m] + tail, disks, n, k + 1) <==> m.operation != LOGOUT && FatalAt(tail, disks, n + 1, k)
  {
    if k < |tail| {
      assert ([m] + tail)[..k + 1] == [m] + tail[..k];
      NoLogoutCons(m, tail[..k]);
      assert n + 1 + k == n + (k + 1);
    }
  }

  lemma FatalCons(m: Message, tail: seq<Message>, disks: nat -> Disk, n: nat)
    ensures AnyFatal([m] + tail, disks, n) <==>
            Fatal(m, disks(n)) || (m.operation != LOGOUT && AnyFatal(tail, disks, n + 1))
  {
    var ms, next := [m] + tail, n + 1;
    assert FatalAt(ms, disks, n, 0) <==> Fatal(m, disks(n));
    if AnyFatal(ms, disks, n) {
      var k: nat :| FatalAt(ms, disks, n, k);
      if k > 0 {
        FatalShift(m, tail, disks, n, k - 1);
      }
    }
    if AnyFatal(tail, disks, next) {
      var k: nat :| FatalAt(tail, disks, next, k);
      FatalShift(m, tail, disks, n, k);
    }
  }

  lemma BringsDownCons(m: Message, rest: Bytes, input: Bytes, disks: nat -> Disk, n: nat)
    requires MessageAt(input) == Decoded(m, rest)
    ensures BringsDown(input, disks, n) <==>
            Fatal(m, disks(n)) || (m.operation != LOGOUT && BringsDown(rest, disks, n + 1))
  {
    assert MessagesIn(input) == [m] + MessagesIn(rest);
    FatalCons(m, MessagesIn(rest), disks, n);
    NoLogoutCons(m, MessagesIn(rest));
  }

  /** With an engine in order, whether a connection ends the server depends on what it
      sends and on the rule files alone: a fatal message before any logout, or a bad frame
      behind the last message. */
  lemma {:induction false} GoesDownExactly(s: ServerState, input: Bytes, disks: nat -> Disk, n: nat)
    requires InOrder(s.engine)
    ensures !Serve(s, input, disks, n).up <==> BringsDown(input, disks, n)
    decreases |input|
  {
    MessagePanicsExactly(input);
    match MessageAt(input)
    case Undecodable =>
    case Panicked =>
    case Decoded(m, rest) =>
      BringsDownCons(m, rest, input, disks, n);
      CrashesExactly(s, m, disks(n));
      if HandledMessage(s, m, disks(n)).Done? && m.operation != LOGOUT {
        HandledKeepsOrder(s, m, disks(n));
        GoesDownExactly(HandledMessage(s, m, disks(n)).value.1, rest, disks, n + 1);
      }
  }

  /** QUERY with the argument "-1:" ends any server. */
  lemma MinusOneEndsServer(s: ServerState, disks: nat -> Disk, n: nat)
    ensures !Serve(s, EncodedMessage(Message(QUERY, [[MINUS] + Decimal(1) + [COLON]])), disks, n).up
  {
    var m := Message(QUERY, [[MINUS] + Decimal(1) + [COLON]]);
    NegativeLengthPanics(1, []);
    assert m.arguments[0] + [] == m.arguments[0];
    assert |EncodedMessage(m)| <= 100 by {
      DecimalSmall(3);
      DecimalSmall(5);
      assert LVs([m.arguments[0]]) == LV(m.arguments[0]) + LVs([]);
      assert ([m.operation] + m.arguments)[1..] == [m.arguments[0]];
      DecimalSmall(|LVs([m.operation] + m.arguments)|);
    }
    MessageRoundTrip(m, []);
    assert EncodedMessage(m) + [] == EncodedMessage(m);
  }

  // -------------------------------------------------------------------- counters

  /** A query that is answered with an error. */
  predicate Rejected(m: Message)
  {
    m.operation == QUERY && (|m.arguments| != 1 || ParseText(m.arguments[0]).Malformed?)
  }

  /** The rejected queries of a connection up to its logout. */
  function RejectedIn(ms: seq<Message>): nat
  {
    if ms == [] || ms[0].operation == LOGOUT then 0
    else (if Rejected(ms[0]) then 1 else 0) + RejectedIn(ms[1..])
  }

  function QueriesIn(ms: seq<Message>): nat
  {
    if ms == [] || ms[0].operation == LOGOUT then 0
    else (if ms[0].operation == QUERY then 1 else 0) + QueriesIn(ms[1..])
  }

  lemma QueryCounted(s: ServerState, m: Message, disk: Disk)
    requires HandledMessage(s, m, disk).Done?
    ensures var before, after := s.metrics, HandledMessage(s, m, disk).value.1.metrics;
            && after.queriesTotal == before.queriesTotal + (if m.operation == QUERY then 1 else 0)
            && after.queriesOK + after.queriesDenied == before.queriesOK + before.queriesDenied +
               (if m.operation == QUERY && !Rejected(m) then 1 else 0)
  {
    assert QUERY[0] != ADD[0] && QUERY[0] != RELOAD[0];
    if m.operation == QUERY && |m.arguments| == 1 && ParseText(m.arguments[0]).Parsed? {
      AnswerNeverFails(s.engine, ParseText(m.arguments[0]).value);
    }
  }

  /** Over every connection the counters balance: the queries received are those granted,
      those denied and those rejected, in which the engine's rules have no part. */
  lemma {:induction false} MetricsBalance(s: ServerState, input: Bytes, disks: nat -> Disk, n: nat)
    requires Serve(s, input, disks, n).up
    ensures var before, after := s.metrics, Serve(s, input, disks, n).state.metrics;
            && after.queriesTotal == before.queriesTotal + QueriesIn(MessagesIn(input))
            && after.queriesOK + after.queriesDenied + RejectedIn(MessagesIn(input)) ==
               before.queriesOK + before.queriesDenied + QueriesIn(MessagesIn(input))
    decreases |input|
  {
    match MessageAt(input)
    case Undecodable =>
    case Decoded(m, rest) =>
      var ms := MessagesIn(rest);
      assert MessagesIn(input) == [m] + ms && ([m] + ms)[1..] == ms;
      QueryCounted(s, m, disks(n));
      if m.operation == LOGOUT {
        assert LOGOUT[0] != QUERY[0];
      } else {
        MetricsBalance(HandledMessage(s, m, disks(n)).value.1, rest, disks, n + 1);
      }
  }
}

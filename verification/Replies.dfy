/** What the server replies to every message, and what it does to its rules and counters,
    in terms of the message, the rule book and the rule files alone. */
module Replies {

  import opened Wrappers
  import opened ByteStrings
  import opened Elements
  import opened Parsing
  import opened Engines
  import opened EngineProofs
  import opened Protocol
  import opened TextFiles
  import opened TextProofs
  import opened Servers
  import opened Sessions

  lemma OperationWords()
    ensures QUERY == Ascii("QUERY") && ADD == Ascii("ADD") && LOGOUT == Ascii("LOGOUT") && RELOAD == Ascii("RELOAD")
  {
  }

  lemma AnswerWords()
    ensures TEXT_OK == Ascii("Ok") && TEXT_DENIED == Ascii("Denied") && TEXT_BYE == Ascii("Bye")
    ensures TEXT_RELOADED == Ascii("Reloaded") && TEXT_PROTOCOL_ERROR == Ascii("Protocol error")
  {
  }

  /** The words differ. */
  lemma WordsDiffer()
    ensures QUERY != ADD && QUERY != LOGOUT && QUERY != RELOAD && ADD != LOGOUT && ADD != RELOAD && LOGOUT != RELOAD
    ensures CODE_OK != CODE_BYE && CODE_OK != CODE_DENIED && CODE_OK != CODE_ERROR && CODE_OK != CODE_UNKNOWN
    ensures CODE_BYE != CODE_DENIED && CODE_BYE != CODE_ERROR && CODE_BYE != CODE_UNKNOWN
    ensures CODE_DENIED != CODE_ERROR && CODE_DENIED != CODE_UNKNOWN && CODE_ERROR != CODE_UNKNOWN
  {
    assert QUERY[0] != ADD[0] && QUERY[0] != LOGOUT[0] && QUERY[0] != RELOAD[0];
    assert ADD[0] != LOGOUT[0] && ADD[0] != RELOAD[0] && LOGOUT[0] != RELOAD[0];
    assert CODE_OK[2] != CODE_BYE[2] && CODE_OK[0] != CODE_DENIED[0] && CODE_OK[0] != CODE_ERROR[0];
    assert CODE_OK[0] != CODE_UNKNOWN[0] && CODE_BYE[0] != CODE_DENIED[0] && CODE_BYE[0] != CODE_ERROR[0];
    assert CODE_BYE[0] != CODE_UNKNOWN[0] && CODE_DENIED[0] != CODE_ERROR[0] && CODE_DENIED[0] != CODE_UNKNOWN[0];
    assert CODE_ERROR[2] != CODE_UNKNOWN[2];
  }

  // ------------------------------------------------------------------- rule files

  /** The rule lines of all files, in order. */
  function AllLines(files: seq<Bytes>): seq<Bytes>
  {
    if files == [] then [] else RuleLines(files[0]) + AllLines(files[1..])
  }

  predicate ParsedAs(lines: seq<Bytes>, rules: seq<Element>)
  {
    && |lines| == |rules|
    && forall i :: 0 <= i < |lines| ==> ParseText(lines[i]).Parsed? && ParseText(lines[i]).value == rules[i]
  }

  predicate AllLoad(files: seq<Bytes>)
  {
    forall i :: 0 <= i < |files| ==> Loads(files[i])
  }

  lemma ParsedAsConcat(xs: seq<Bytes>, ys: seq<Bytes>, rs: seq<Element>, ss: seq<Element>)
    requires ParsedAs(xs, rs) && ParsedAs(ys, ss)
    ensures ParsedAs(xs + ys, rs + ss)
  {
  }

  /** The files load exactly when each does, and then as the parses of all their rule lines
      in order. */
  lemma {:induction false} FilesLoadExactly(files: seq<Bytes>)
    ensures FileRules(files).Done? <==> AllLoad(files)
    ensures FileRules(files).Done? ==> ParsedAs(AllLines(files), FileRules(files).value)
  {
    if files != [] {
      LoadsExactly(files[0], []);
      assert AllLoad(files) <==> Loads(files[0]) && AllLoad(files[1..]) by {
        assert forall i :: 0 <= i < |files| - 1 ==> files[1..][i] == files[i + 1];
      }
      FilesLoadExactly(files[1..]);
      if Loads(files[0]) && AllLoad(files[1..]) {
        LoadsTheLines(files[0], []);
        var first := LoadedText(files[0], DEFAULTS, []).value;
        assert first[..0] == [] && forall i :: 0 <= i < |first| ==> first[0 + i] == first[i];
        ParsedAsConcat(RuleLines(files[0]), AllLines(files[1..]), first, FileRules(files[1..]).value);
      }
    }
  }

  // --------------------------------------------------------------------- messages

  /** The operation with one argument, and that parses. */
  predicate Parses(m: Message, operation: Bytes)
  {
    m.operation == operation && |m.arguments| == 1 && ParseText(m.arguments[0]).Parsed?
  }

  function Argument(m: Message): Element
    requires |m.arguments| == 1 && ParseText(m.arguments[0]).Parsed?
  {
    ParseText(m.arguments[0]).value
  }

  predicate Reloads(m: Message, disk: Disk)
  {
    m.operation == Ascii("RELOAD") && disk.Some? && AllLoad(disk.value)
  }

  predicate Known(operation: Bytes)
  {
    || operation == Ascii("QUERY") || operation == Ascii("ADD")
    || operation == Ascii("LOGOUT") || operation == Ascii("RELOAD")
  }

  /** The reply a message calls for. */
  ghost predicate CallsFor(book: RuleBook, m: Message, disk: Disk, code: Bytes)
  {
    var granted := Parses(m, Ascii("QUERY")) && Grants(book, Argument(m));
    && (code == Ascii("200") <==> granted || Parses(m, Ascii("ADD")) || Reloads(m, disk))
    && (code == Ascii("400") <==> Parses(m, Ascii("QUERY")) && !granted)
    && (code == Ascii("203") <==> m.operation == Ascii("LOGOUT"))
    && (code == Ascii("501") <==> !Known(m.operation))
    && (code != Ascii("200") && code != Ascii("400") && code != Ascii("203") && code != Ascii("501") ==>
        code == Ascii("500"))
  }

  /** The rule book a message leaves. */
  ghost predicate Leaves(book: RuleBook, m: Message, disk: Disk, after: RuleBook)
  {
    if Parses(m, Ascii("ADD")) then after == book.(rules := book.rules + [Argument(m)])
    else if Reloads(m, disk) then after.indexed && ParsedAs(AllLines(disk.value), after.rules)
    else after == book
  }

  /** Over all servers in order, messages and rule files: unless the message is fatal, the
      code is what the message calls for, and the rules are changed by additions that parse
      and reloads that load, and by nothing else. */
  lemma RepliesExactly(s: ServerState, m: Message, disk: Disk)
    requires InOrder(s.engine)
    ensures HandledMessage(s, m, disk).Done? <==> !Fatal(m, disk)
    ensures !Fatal(m, disk) ==>
            var (response, after) := HandledMessage(s, m, disk).value;
            && CallsFor(BookOf(s.engine), m, disk, response.code)
            && Leaves(BookOf(s.engine), m, disk, BookOf(after.engine))
            && InOrder(after.engine)
            && (Parses(m, Ascii("ADD")) || Reloads(m, disk) || after.engine == s.engine)
  {
    CrashesExactly(s, m, disk);
    if !Fatal(m, disk) {
      HandledKeepsOrder(s, m, disk);
      OperationWords();
      CodeWords();
      WordsDiffer();
      if m.operation == QUERY {
        QueryReply(s, m, disk);
      } else if m.operation == RELOAD {
        ReloadReply(s, m, disk);
      }
    }
  }

  lemma QueryReply(s: ServerState, m: Message, disk: Disk)
    requires InOrder(s.engine) && m.operation == QUERY && HandledMessage(s, m, disk).Done?
    ensures var (response, after) := HandledMessage(s, m, disk).value;
            && response.code == (if !Parses(m, QUERY) then CODE_ERROR
                                 else if Grants(BookOf(s.engine), Argument(m)) then CODE_OK else CODE_DENIED)
            && after.engine == s.engine
  {
    if |m.arguments| == 1 {
      AnswerTextExactly(s.engine, m.arguments[0]);
    }
  }

  lemma ReloadReply(s: ServerState, m: Message, disk: Disk)
    requires m.operation == RELOAD && HandledMessage(s, m, disk).Done?
    ensures var (response, after) := HandledMessage(s, m, disk).value;
            && response.code == (if disk.Some? && AllLoad(disk.value) then CODE_OK else CODE_ERROR)
            && (if disk.Some? && AllLoad(disk.value)
                then after.engine.indexEnabled && ParsedAs(AllLines(disk.value), after.engine.rules)
                else after.engine == s.engine)
  {
    WordsDiffer();
    if disk.Some? {
      FilesLoadExactly(disk.value);
      if AllLoad(disk.value) {
        AddAllRules(New(true), FileRules(disk.value).value);
        assert [] + FileRules(disk.value).value == FileRules(disk.value).value;
      }
    }
  }

  lemma ErrorWords()
    ensures TEXT_INVALID_QUERY == Ascii("Invalid query: ") && TEXT_INVALID_RULE == Ascii("Invalid rule: ")
    ensures TEXT_RELOAD_FAILED == Ascii("Reload failed: ")
  {
  }

  lemma UnknownWords()
    ensures TEXT_UNKNOWN == Ascii("Unknown operation: ")
  {
  }

  lemma ArgumentWords()
    ensures TEXT_ONE_ARGUMENT == Ascii(" requires exactly one argument")
  {
  }

  /** The text of every reply, up to an error's own words. */
  lemma ReplyTexts(s: ServerState, m: Message, disk: Disk)
    requires HandledMessage(s, m, disk).Done?
    ensures var response := HandledMessage(s, m, disk).value.0;
            && (response.code == CODE_OK ==>
                response.message == if m.operation == RELOAD then TEXT_RELOADED else TEXT_OK)
            && (response.code == CODE_DENIED ==> response.message == TEXT_DENIED)
            && (response.code == CODE_BYE ==> response.message == TEXT_BYE)
            && (response.code == CODE_UNKNOWN ==> response.message == TEXT_UNKNOWN + m.operation)
            && (response.code == CODE_ERROR ==>
                response.message ==
                  if m.operation == RELOAD then TEXT_RELOAD_FAILED
                  else if |m.arguments| != 1 then m.operation + TEXT_ONE_ARGUMENT
                  else if m.operation == QUERY then TEXT_INVALID_QUERY
                  else TEXT_INVALID_RULE)
  {
    WordsDiffer();
  }

  /** Every counter, for every message. */
  lemma CountersExactly(s: ServerState, m: Message, disk: Disk)
    requires HandledMessage(s, m, disk).Done?
    ensures var (response, after) := HandledMessage(s, m, disk).value;
            var old', now := s.metrics, after.metrics;
            && now.queriesTotal == old'.queriesTotal + (if m.operation == QUERY then 1 else 0)
            && now.queriesOK == old'.queriesOK + (if m.operation == QUERY && response.code == CODE_OK then 1 else 0)
            && now.queriesDenied == old'.queriesDenied + (if response.code == CODE_DENIED then 1 else 0)
            && now.addsTotal == old'.addsTotal + (if m.operation == ADD then 1 else 0)
            && now.reloadsTotal == old'.reloadsTotal + (if m.operation == RELOAD then 1 else 0)
            && now.reloadsFailed ==
               old'.reloadsFailed + (if m.operation == RELOAD && response.code == CODE_ERROR then 1 else 0)
            && now.rulesLoaded ==
               if m.operation == RELOAD && response.code == CODE_OK then |after.engine.rules| else old'.rulesLoaded
  {
    WordsDiffer();
    if m.operation == RELOAD && DiskRules(disk).Done? {
      AddAllRules(New(true), DiskRules(disk).value);
    }
  }

  // ----------------------------------------------------------------------- clients

  /** What a client makes of a response that reaches it: 200 is yes, 400 is no, and any
      other code an error. */
  lemma ClientReadsExactly(r: Response)
    requires Deliverable(r)
    ensures ClientAnswer(ResponseAt(EncodedResponse(r))) ==
            if r.code == Ascii("200") then Done(true) else if r.code == Ascii("400") then Done(false) else Failed
  {
    ResponseArrives(r, []);
    assert EncodedResponse(r) + [] == EncodedResponse(r);
    CodeWords();
    WordsDiffer();
  }

  /** For every reply: yes exactly for a frame with code 200, no exactly for one with code
      400, a panic exactly for a frame that is too big, and else an error. */
  lemma ClientAnswersExactly(reply: Bytes)
    ensures ClientAnswer(ResponseAt(reply)) == Done(true) <==> exists text :: Replied(reply, CODE_OK, text)
    ensures ClientAnswer(ResponseAt(reply)) == Done(false) <==> exists text :: Replied(reply, CODE_DENIED, text)
    ensures ClientAnswer(ResponseAt(reply)) == Crashed <==> TooBig(reply)
  {
    WordsDiffer();
    var r := ResponseAt(reply);
    if r.Decoded? {
      ResponsesExactly(reply, r.value, r.rest);
      assert Replied(reply, r.value.code, r.value.message);
    }
    forall code, text | Replied(reply, code, text) ensures r.Decoded? && r.value == Response(code, text) {
      var numeral, rest :| Frame(reply, numeral, code + [COLON] + text, rest);
      ResponsesExactly(reply, Response(code, text), rest);
    }
  }

  /** The reply is a frame of this code and text. */
  ghost predicate Replied(reply: Bytes, code: Bytes, text: Bytes)
  {
    COLON !in code && exists numeral, rest :: Frame(reply, numeral, code + [COLON] + text, rest)
  }

  /** LOGOUT is answered, and nothing behind it is. */
  lemma LogoutEndsSession(s: ServerState, arguments: seq<Bytes>, rest: Bytes, disks: nat -> Disk, n: nat)
    requires |EncodedMessage(Message(LOGOUT, arguments))| <= MAX_ALLOC
    ensures Serve(s, EncodedMessage(Message(LOGOUT, arguments)) + rest, disks, n) ==
            Served(EncodedResponse(Response(CODE_BYE, TEXT_BYE)), s, true)
  {
    MessageRoundTrip(Message(LOGOUT, arguments), rest);
    WordsDiffer();
  }
}

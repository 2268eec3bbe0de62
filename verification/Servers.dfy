/** The TCP server's handling of messages, one at a time, and a client's view of it. */
module Servers {

  import opened Wrappers
  import opened ByteStrings
  import opened Elements
  import opened Parsing
  import opened Engines
  import opened Protocol
  import opened TextFiles

  const QUERY: Bytes := [81, 85, 69, 82, 89]
  const ADD: Bytes := [65, 68, 68]
  const LOGOUT: Bytes := [76, 79, 71, 79, 85, 84]
  const RELOAD: Bytes := [82, 69, 76, 79, 65, 68]

  /** The texts of responses. Where an error's own words follow, they are left out. */
  const TEXT_OK: Bytes := [79, 107]
  const TEXT_DENIED: Bytes := [68, 101, 110, 105, 101, 100]
  const TEXT_BYE: Bytes := [66, 121, 101]
  const TEXT_RELOADED: Bytes := [82, 101, 108, 111, 97, 100, 101, 100]
  const TEXT_ONE_ARGUMENT: Bytes := [
    32, 114, 101, 113, 117, 105, 114, 101, 115, 32, 101, 120, 97, 99, 116, 108, 121, 32, 111, 110, 101, 32,
    97, 114, 103, 117, 109, 101, 110, 116]
  const TEXT_INVALID_QUERY: Bytes := [73, 110, 118, 97, 108, 105, 100, 32, 113, 117, 101, 114, 121, 58, 32]
  const TEXT_INVALID_RULE: Bytes := [73, 110, 118, 97, 108, 105, 100, 32, 114, 117, 108, 101, 58, 32]
  const TEXT_RELOAD_FAILED: Bytes := [82, 101, 108, 111, 97, 100, 32, 102, 97, 105, 108, 101, 100, 58, 32]
  const TEXT_UNKNOWN: Bytes := [
    85, 110, 107, 110, 111, 119, 110, 32, 111, 112, 101, 114, 97, 116, 105, 111, 110, 58, 32]

  datatype Metrics = Metrics(
    queriesTotal: nat, queriesOK: nat, queriesDenied: nat, addsTotal: nat, reloadsTotal: nat, reloadsFailed: nat,
    rulesLoaded: nat)

  datatype ServerState = ServerState(engine: State, metrics: Metrics)

  /** The rule files found under the rules directory; none if it cannot be scanned. */
  type Disk = Option<seq<Bytes>>

  // -------------------------------------------------------------------- handlers

  function FileRules(files: seq<Bytes>): Outcome<seq<Element>>
  {
    if files == [] then Done([])
    else
      match LoadedText(files[0], DEFAULTS, [])
      case Done(rules) => Prepend(rules, FileRules(files[1..]))
      case bad => bad
  }

  /** The rules a reload puts in place. */
  function DiskRules(disk: Disk): Outcome<seq<Element>>
  {
    match disk
    case None => Failed
    case Some(files) => FileRules(files)
  }

  predicate Loads(file: Bytes)
  {
    AllParse(RuleLines(file)) && ShortLines(file)
  }

  ghost predicate BadFileAt(files: seq<Bytes>, i: nat)
  {
    i < |files| && BadLine(RuleLines(files[i])) && forall k :: 0 <= k < i ==> Loads(files[k])
  }

  /** Some file panics the loader and all before it load. */
  ghost predicate BadFile(files: seq<Bytes>)
  {
    exists i: nat :: BadFileAt(files, i)
  }

  ghost predicate BadDisk(disk: Disk)
  {
    disk.Some? && BadFile(disk.value)
  }

  lemma BadFileShift(files: seq<Bytes>, i: nat)
    requires files != []
    ensures BadFileAt(files, i + 1) <==> Loads(files[0]) && BadFileAt(files[1..], i)
  {
    assert forall k :: 0 <= k < |files| - 1 ==> files[1..][k] == files[k + 1];
  }

  lemma BadFileCons(files: seq<Bytes>)
    requires files != []
    ensures BadFile(files) <==> BadLine(RuleLines(files[0])) || (Loads(files[0]) && BadFile(files[1..]))
  {
    assert BadFileAt(files, 0) <==> BadLine(RuleLines(files[0]));
    var rest := files[1..];
    if BadFile(files) {
      var i: nat :| BadFileAt(files, i);
      if i > 0 {
        BadFileShift(files, i - 1);
      }
    }
    if BadFile(rest) {
      var i: nat :| BadFileAt(rest, i);
      BadFileShift(files, i);
    }
  }

  lemma {:induction false} FilesPanicExactly(files: seq<Bytes>)
    ensures FileRules(files).Crashed? <==> BadFile(files)
  {
    if files != [] {
      LoadsExactly(files[0], []);
      BadFileCons(files);
      FilesPanicExactly(files[1..]);
    }
  }

  type Handled = Outcome<(Response, ServerState)>

  function Reply(code: Bytes, text: Bytes, s: ServerState): Handled
  {
    Done((Response(code, text), s))
  }

  function HandledQuery(s: ServerState, arguments: seq<Bytes>): Handled
  {
    var m := s.metrics.(queriesTotal := s.metrics.queriesTotal + 1);
    if |arguments| != 1 then Reply(CODE_ERROR, QUERY + TEXT_ONE_ARGUMENT, s.(metrics := m))
    else
      match AnswerText(s.engine, arguments[0])
      case Crashed => Crashed
      case Failed => Reply(CODE_ERROR, TEXT_INVALID_QUERY, s.(metrics := m))
      case Done(true) => Reply(CODE_OK, TEXT_OK, s.(metrics := m.(queriesOK := m.queriesOK + 1)))
      case Done(false) => Reply(CODE_DENIED, TEXT_DENIED, s.(metrics := m.(queriesDenied := m.queriesDenied + 1)))
  }

  function HandledAdd(s: ServerState, arguments: seq<Bytes>): Handled
  {
    var m := s.metrics.(addsTotal := s.metrics.addsTotal + 1);
    if |arguments| != 1 then Reply(CODE_ERROR, ADD + TEXT_ONE_ARGUMENT, s.(metrics := m))
    else
      match ParseText(arguments[0])
      case Panics => Crashed
      case Malformed => Reply(CODE_ERROR, TEXT_INVALID_RULE, s.(metrics := m))
      case Parsed(rule, _) => Reply(CODE_OK, TEXT_OK, ServerState(Add(s.engine, rule), m))
  }

  function HandledReload(s: ServerState, disk: Disk): Handled
  {
    var m := s.metrics.(reloadsTotal := s.metrics.reloadsTotal + 1);
    match DiskRules(disk)
    case Crashed => Crashed
    case Failed => Reply(CODE_ERROR, TEXT_RELOAD_FAILED, s.(metrics := m.(reloadsFailed := m.reloadsFailed + 1)))
    case Done(rules) =>
      Reply(CODE_OK, TEXT_RELOADED, ServerState(AddAll(New(true), rules), m.(rulesLoaded := |rules|)))
  }

  function HandledMessage(s: ServerState, m: Message, disk: Disk): Handled
  {
    if m.operation == QUERY then HandledQuery(s, m.arguments)
    else if m.operation == ADD then HandledAdd(s, m.arguments)
    else if m.operation == LOGOUT then Reply(CODE_BYE, TEXT_BYE, s)
    else if m.operation == RELOAD then HandledReload(s, disk)
    else Reply(CODE_UNKNOWN, TEXT_UNKNOWN + m.operation, s)
  }

  // ---------------------------------------------------------------------- object

  class Server {
    var engine: Engine
    var metrics: Metrics

    ghost function Now(): ServerState
      reads this, engine
    {
      ServerState(engine.Now(), metrics)
    }

    constructor (engine: Engine)
      ensures this.engine == engine && Now() == ServerState(engine.Now(), Metrics(0, 0, 0, 0, 0, 0, 0))
    {
      this.engine := engine;
      metrics := Metrics(0, 0, 0, 0, 0, 0, 0);
    }

    method HandleMessage(m: Message, disk: Disk) returns (r: Outcome<Response>)
      modifies this, engine
      ensures engine == old(engine) || fresh(engine)
      ensures match HandledMessage(old(Now()), m, disk)
              case Done((response, after)) => r == Done(response) && Now() == after
              case _ => r == Crashed
    {
      if m.operation == QUERY {
        r := HandleQuery(m.arguments);
      } else if m.operation == ADD {
        r := HandleAdd(m.arguments);
      } else if m.operation == LOGOUT {
        r := Done(Response(CODE_BYE, TEXT_BYE));
      } else if m.operation == RELOAD {
        r := HandleReload(disk);
      } else {
        r := Done(Response(CODE_UNKNOWN, TEXT_UNKNOWN + m.operation));
      }
    }

    method HandleQuery(arguments: seq<Bytes>) returns (r: Outcome<Response>)
      modifies this
      ensures engine == old(engine)
      ensures match HandledQuery(old(Now()), arguments)
              case Done((response, after)) => r == Done(response) && Now() == after
              case _ => r == Crashed
    {
      metrics := metrics.(queriesTotal := metrics.queriesTotal + 1);
      if |arguments| != 1 {
        return Done(Response(CODE_ERROR, QUERY + TEXT_ONE_ARGUMENT));
      }
      var answer := engine.Query(arguments[0]);
      match answer {
        case Crashed => r := Crashed;
        case Failed => r := Done(Response(CODE_ERROR, TEXT_INVALID_QUERY));
        case Done(true) =>
          metrics := metrics.(queriesOK := metrics.queriesOK + 1);
          r := Done(Response(CODE_OK, TEXT_OK));
        case Done(false) =>
          metrics := metrics.(queriesDenied := metrics.queriesDenied + 1);
          r := Done(Response(CODE_DENIED, TEXT_DENIED));
      }
    }

    method HandleAdd(arguments: seq<Bytes>) returns (r: Outcome<Response>)
      modifies this, engine
      ensures engine == old(engine)
      ensures match HandledAdd(old(Now()), arguments)
              case Done((response, after)) => r == Done(response) && Now() == after
              case _ => r == Crashed
    {
      metrics := metrics.(addsTotal := metrics.addsTotal + 1);
      if |arguments| != 1 {
        return Done(Response(CODE_ERROR, ADD + TEXT_ONE_ARGUMENT));
      }
      var added := engine.AddRule(arguments[0]);
      match added {
        case Crashed => r := Crashed;
        case Failed => r := Done(Response(CODE_ERROR, TEXT_INVALID_RULE));
        case Done(_) => r := Done(Response(CODE_OK, TEXT_OK));
      }
    }

    method HandleReload(disk: Disk) returns (r: Outcome<Response>)
      modifies this
      ensures engine == old(engine) || fresh(engine)
      ensures match HandledReload(old(Now()), disk)
              case Done((response, after)) => r == Done(response) && Now() == after
              case _ => r == Crashed
    {
      metrics := metrics.(reloadsTotal := metrics.reloadsTotal + 1);
      var reloaded := ReloadRules(disk);
      match reloaded {
        case Crashed => r := Crashed;
        case Failed =>
          metrics := metrics.(reloadsFailed := metrics.reloadsFailed + 1);
          r := Done(Response(CODE_ERROR, TEXT_RELOAD_FAILED));
        case Done(_) => r := Done(Response(CODE_OK, TEXT_RELOADED));
      }
    }

    /** A new engine is filled file by file and swapped in only when all files loaded. */
    method ReloadRules(disk: Disk) returns (r: Outcome<()>)
      modifies this
      ensures match DiskRules(disk)
              case Done(rules) =>
                && r == Done(()) && fresh(engine)
                && Now() == ServerState(AddAll(New(true), rules), old(metrics).(rulesLoaded := |rules|))
              case Failed => r == Failed && engine == old(engine) && Now() == old(Now())
              case Crashed => r == Crashed && engine == old(engine) && Now() == old(Now())
    {
      var newEngine := new Engine(true);
      if disk.None? {
        return Failed;
      }
      var files, totalRules := disk.value, 0;
      ghost var loaded: seq<Element> := [];
      PrependTwice([], [], FileRules(files));
      for i := 0 to |files|
        invariant newEngine.Now() == AddAll(New(true), loaded) && totalRules == |loaded|
        invariant FileRules(files) == Prepend(loaded, FileRules(files[i..]))
        invariant Now() == old(Now()) && engine == old(engine)
      {
        assert files[i..][1..] == files[i + 1..];
        var rules := LoadText(files[i], DEFAULTS);
        if rules.Failed? {
          return Failed;
        }
        if rules.Crashed? {
          return Crashed;
        }
        AddAllConcat(New(true), loaded, rules.value);
        newEngine.AddRules(rules.value);
        totalRules := totalRules + |rules.value|;
        PrependTwice(loaded, rules.value, FileRules(files[i + 1..]));
        loaded := loaded + rules.value;
      }
      assert loaded + [] == loaded;
      engine := newEngine;
      metrics := metrics.(rulesLoaded := totalRules);
      r := Done(());
    }
  }

  lemma {:induction false} AddAllConcat(s: State, xs: seq<Element>, ys: seq<Element>)
    ensures AddAll(AddAll(s, xs), ys) == AddAll(s, xs + ys)
    decreases |ys|
  {
    if ys == [] {
      assert xs + ys == xs;
    } else {
      var n := |ys| - 1;
      AddAllConcat(s, xs, ys[..n]);
      assert (xs + ys)[..|xs + ys| - 1] == xs + ys[..n] && (xs + ys)[|xs + ys| - 1] == ys[n];
    }
  }
}

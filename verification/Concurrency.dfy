/** The server under concurrent connections: queries under the read lock, additions and
    engine swaps under the write lock, reloads one at a time under their own lock. Every
    action is one atomic step of one thread; a step that is not possible does nothing. */
module Concurrency {

  import opened Wrappers
  import opened ByteStrings
  import opened Elements
  import opened Compare
  import opened Parsing
  import opened Engines
  import opened EngineProofs
  import opened TextFiles

  datatype Thread =
    | Idle
    // QUERY
    | WantRead(query: Element)
    | Scanning(query: Element, left: seq<nat>)
    | Decided(query: Element, granted: bool)
    // ADD
    | WantAdd(rule: Element)
    | Adding(rule: Element)
    | Appended(rule: Element)
    | AddDone
    // RELOAD
    | WantReload
    | Loading(loaded: State)
    | LoadFailed
    | WantSwap(loaded: State)
    | Swapping(loaded: State)
    | SwapDone
    | ReloadDone
  {
    predicate HoldsRead() { Scanning? || Decided? }
    predicate HoldsWrite() { Adding? || Appended? || AddDone? || Swapping? || SwapDone? }
    predicate HoldsReload() { Loading? || LoadFailed? || WantSwap? || Swapping? || SwapDone? || ReloadDone? }
  }

  /** What has taken effect, in order. */
  datatype Event = Queried(query: Element, granted: bool) | Added(rule: Element) | Reloaded(rules: seq<Element>)

  datatype Shared = Shared(
    engine: State, writer: Option<nat>, readers: set<nat>, reloader: Option<nat>,
    threads: map<nat, Thread>, log: seq<Event>)
  {
    function At(t: nat): Thread
    {
      if t in threads then threads[t] else Idle
    }

    function Move(t: nat, th: Thread): Shared
    {
      this.(threads := threads[t := th])
    }
  }

  datatype Action =
    | BeginQuery(text: Bytes) | AcquireRead | ReadNext | ReleaseRead
    | BeginAdd(text: Bytes) | AcquireWrite | AppendRule | FileRule | ReleaseWrite
    | BeginReload | AcquireReload | LoadFile(content: Option<Bytes>) | FinishLoad | Swap | ReleaseReload

  // ----------------------------------------------------------------------- steps

  function AllPositions(n: nat): seq<nat>
  {
    seq(n, i => i)
  }

  /** The positions a query goes through, taken once the read lock is held. */
  function ScanList(engine: State, query: Element): seq<nat>
  {
    if engine.indexEnabled then Candidates(engine, query) else AllPositions(|engine.rules|)
  }

  function Begin(s: Shared, t: nat, a: Action): Shared
  {
    if !s.At(t).Idle? then s
    else
      match a
      case BeginQuery(text) => if ParseText(text).Parsed? then s.Move(t, WantRead(ParseText(text).value)) else s
      case BeginAdd(text) => if ParseText(text).Parsed? then s.Move(t, WantAdd(ParseText(text).value)) else s
      case BeginReload => s.Move(t, WantReload)
      case _ => s
  }

  function Lock(s: Shared, t: nat, a: Action): Shared
  {
    match s.At(t)
    case WantRead(q) =>
      if a.AcquireRead? && s.writer.None? then
        s.Move(t, Scanning(q, ScanList(s.engine, q))).(readers := s.readers + {t})
      else s
    case WantAdd(rule) =>
      if a.AcquireWrite? && s.writer.None? && s.readers == {} then s.Move(t, Adding(rule)).(writer := Some(t)) else s
    case WantSwap(e) =>
      if a.AcquireWrite? && s.writer.None? && s.readers == {} then s.Move(t, Swapping(e)).(writer := Some(t)) else s
    case WantReload =>
      if a.AcquireReload? && s.reloader.None? then s.Move(t, Loading(New(true))).(reloader := Some(t)) else s
    case _ => s
  }

  function Unlock(s: Shared, t: nat, a: Action): Shared
  {
    match s.At(t)
    case Decided(_, _) => if a.ReleaseRead? then s.Move(t, Idle).(readers := s.readers - {t}) else s
    case AddDone => if a.ReleaseWrite? then s.Move(t, Idle).(writer := None) else s
    case SwapDone => if a.ReleaseWrite? then s.Move(t, ReloadDone).(writer := None) else s
    case LoadFailed => if a.ReleaseReload? then s.Move(t, Idle).(reloader := None) else s
    case ReloadDone => if a.ReleaseReload? then s.Move(t, Idle).(reloader := None) else s
    case _ => s
  }

  /** One rule compared; the answer takes effect with the last comparison. */
  function Read(s: Shared, t: nat): Shared
  {
    match s.At(t)
    case Scanning(q, left) =>
      if left == [] then s.Move(t, Decided(q, false)).(log := s.log + [Queried(q, false)])
      else if left[0] >= |s.engine.rules| then s
      else if LessPermissive(q, s.engine.rules[left[0]]) then
        s.Move(t, Decided(q, true)).(log := s.log + [Queried(q, true)])
      else s.Move(t, Scanning(q, left[1..]))
    case _ => s
  }

  /** The two halves of AddRuleElement, and the swap. */
  function Write(s: Shared, t: nat, a: Action): Shared
  {
    match s.At(t)
    case Adding(rule) =>
      if a.AppendRule? then
        s.Move(t, Appended(rule)).(engine := Append(s.engine, rule), log := s.log + [Added(rule)])
      else s
    case Appended(_) =>
      if a.FileRule? && s.engine.rules != [] then
        s.Move(t, AddDone).(engine := if s.engine.indexEnabled then IndexLast(s.engine) else s.engine)
      else s
    case Swapping(e) =>
      if a.Swap? then s.Move(t, SwapDone).(engine := e, log := s.log + [Reloaded(e.rules)]) else s
    case _ => s
  }

  /** Loading works on an engine no other thread has seen. A file that cannot be read or
      parsed ends the reload. */
  function Load(s: Shared, t: nat, a: Action): Shared
  {
    if !s.At(t).Loading? then s
    else
      var e := s.At(t).loaded;
      match a
      case LoadFile(None) => s.Move(t, LoadFailed)
      case LoadFile(Some(content)) =>
        (match LoadedText(content, DEFAULTS, [])
         case Done(rules) => s.Move(t, Loading(AddAll(e, rules)))
         case Failed => s.Move(t, LoadFailed)
         case Crashed => s)
      case FinishLoad => s.Move(t, WantSwap(e))
      case _ => s
  }

  function Step(s: Shared, t: nat, a: Action): Shared
  {
    match a
    case BeginQuery(_) => Begin(s, t, a)
    case BeginAdd(_) => Begin(s, t, a)
    case BeginReload => Begin(s, t, a)
    case AcquireRead => Lock(s, t, a)
    case AcquireWrite => Lock(s, t, a)
    case AcquireReload => Lock(s, t, a)
    case ReleaseRead => Unlock(s, t, a)
    case ReleaseWrite => Unlock(s, t, a)
    case ReleaseReload => Unlock(s, t, a)
    case ReadNext => Read(s, t)
    case AppendRule => Write(s, t, a)
    case FileRule => Write(s, t, a)
    case Swap => Write(s, t, a)
    case LoadFile(_) => Load(s, t, a)
    case FinishLoad => Load(s, t, a)
  }

  function Start(engine: State): Shared
  {
    Shared(engine, None, {}, None, map[], [])
  }

  /** Any interleaving of any threads. */
  function Run(s: Shared, steps: seq<(nat, Action)>): Shared
    decreases |steps|
  {
    if steps == [] then s
    else
      var last := steps[|steps| - 1];
      Step(Run(s, steps[..|steps| - 1]), last.0, last.1)
  }

  // ------------------------------------------------------ the sequential behaviour

  /** What an event makes of a rule book. */
  function After(book: RuleBook, e: Event): RuleBook
  {
    match e
    case Queried(_, _) => book
    case Added(rule) => book.(rules := book.rules + [rule])
    case Reloaded(rules) => RuleBook(rules, true)
  }

  /** The rule book left by a history: the last snapshot loaded, which is indexed, and the
      additions since. */
  function Replay(book: RuleBook, log: seq<Event>): RuleBook
    decreases |log|
  {
    if log == [] then book
    else
      After(Replay(book, log[..|log| - 1]), log[|log| - 1])
  }

  /** Every answer in the history is the one the rule book at its place gives. */
  ghost predicate Legal(book: RuleBook, log: seq<Event>)
    decreases |log|
  {
    log == [] ||
    (Legal(book, log[..|log| - 1]) &&
     match log[|log| - 1]
     case Queried(q, granted) => granted == Grants(Replay(book, log[..|log| - 1]), q)
     case _ => true)
  }

  /** Queries and rules that came in as text. */
  ghost predicate Textual(e: Event)
  {
    match e
    case Queried(q, _) => StarFree(q)
    case Added(rule) => StarFree(rule)
    case Reloaded(rules) => Simple(rules)
  }

  // ------------------------------------------------------------------- invariant

  /** The last rule is in the list but not in the index. */
  ghost predicate HalfAdded(e: State)
  {
    e.rules != [] && InOrder(e.(rules := e.rules[..|e.rules| - 1]))
  }

  ghost predicate LocksMatch(s: Shared)
  {
    && (forall t: nat :: s.At(t).HoldsWrite() <==> s.writer == Some(t))
    && (forall t: nat :: s.At(t).HoldsRead() <==> t in s.readers)
    && (forall t: nat :: s.At(t).HoldsReload() <==> s.reloader == Some(t))
    && (s.writer.Some? ==> s.readers == {})
  }

  ghost predicate ThreadOK(engine: State, th: Thread)
  {
    match th
    case WantRead(q) => StarFree(q)
    case Scanning(q, left) => StarFree(q) && ScanAt(engine.rules, q, left) == Done(Grants(BookOf(engine), q))
    case WantAdd(rule) => StarFree(rule)
    case Adding(rule) => StarFree(rule)
    case Loading(e) => Indexed(e) && e.indexEnabled && Simple(e.rules)
    case WantSwap(e) => Indexed(e) && e.indexEnabled && Simple(e.rules)
    case Swapping(e) => Indexed(e) && e.indexEnabled && Simple(e.rules)
    case _ => true
  }

  ghost predicate EngineOK(s: Shared)
  {
    if s.writer.Some? && s.At(s.writer.value).Appended? then HalfAdded(s.engine) else InOrder(s.engine)
  }

  ghost predicate HistoryOK(book: RuleBook, initial: RuleBook, log: seq<Event>)
  {
    book == Replay(initial, log) && Legal(initial, log) && forall e :: e in log ==> Textual(e)
  }

  ghost predicate Inv(s: Shared, initial: RuleBook)
  {
    && LocksMatch(s)
    && EngineOK(s)
    && (forall t: nat :: ThreadOK(s.engine, s.At(t)))
    && (forall t: nat :: s.At(t).Decided? ==> Queried(s.At(t).query, s.At(t).granted) in s.log)
    && HistoryOK(BookOf(s.engine), initial, s.log)
  }

  lemma {:induction false} ScanRest(rules: seq<Element>, query: Element, k: nat)
    requires k <= |rules|
    ensures ScanAt(rules, query, AllPositions(|rules|)[k..]) ==
            Done(exists i :: k <= i < |rules| && LessPermissive(query, rules[i]))
    decreases |rules| - k
  {
    if k < |rules| {
      ScanRest(rules, query, k + 1);
      assert AllPositions(|rules|)[k..][1..] == AllPositions(|rules|)[k + 1..];
    }
  }

  /** A query that starts with the engine in order will get the rule book's answer. */
  lemma ScanListAnswers(engine: State, query: Element)
    requires InOrder(engine)
    ensures ScanAt(engine.rules, query, ScanList(engine, query)) == Done(Grants(BookOf(engine), query))
  {
    if engine.indexEnabled {
      AnswersByBook(engine, query);
    } else {
      ScanRest(engine.rules, query, 0);
      assert AllPositions(|engine.rules|)[0..] == AllPositions(|engine.rules|);
    }
  }

  /** A thread may move on by itself as long as it takes and releases nothing. */
  lemma MoveKeeps(s: Shared, t: nat, th: Thread, initial: RuleBook)
    requires Inv(s, initial) && ThreadOK(s.engine, th)
    requires th.HoldsRead() == s.At(t).HoldsRead() && th.HoldsReload() == s.At(t).HoldsReload()
    requires !th.HoldsWrite() && !s.At(t).HoldsWrite() && !th.Decided?
    ensures Inv(s.Move(t, th), initial)
  {
    var s' := s.Move(t, th);
    assert forall u: nat :: s'.At(u) == if u == t then th else s.At(u);
  }

  lemma BeginKeeps(s: Shared, t: nat, a: Action, initial: RuleBook)
    requires Inv(s, initial)
    ensures Inv(Begin(s, t, a), initial)
  {
    if s.At(t).Idle? {
      if (a.BeginQuery? || a.BeginAdd?) && ParseText(a.text).Parsed? {
        ElementAtSimple(a.text, 0);
        var e := ParseText(a.text).value;
        MoveKeeps(s, t, if a.BeginQuery? then WantRead(e) else WantAdd(e), initial);
      } else if a.BeginReload? {
        MoveKeeps(s, t, WantReload, initial);
      }
    }
  }

  lemma ReadLockKeeps(s: Shared, t: nat, q: Element, initial: RuleBook)
    requires Inv(s, initial) && s.At(t) == WantRead(q) && s.writer.None?
    ensures Inv(s.Move(t, Scanning(q, ScanList(s.engine, q))).(readers := s.readers + {t}), initial)
  {
    var th := Scanning(q, ScanList(s.engine, q));
    var s' := s.Move(t, th).(readers := s.readers + {t});
    assert forall u: nat :: s'.At(u) == if u == t then th else s.At(u);
    assert ThreadOK(s.engine, s.At(t));
    ScanListAnswers(s.engine, q);
  }

  lemma WriteLockKeeps(s: Shared, t: nat, th: Thread, initial: RuleBook)
    requires Inv(s, initial) && s.writer.None? && s.readers == {}
    requires (s.At(t).WantAdd? && th == Adding(s.At(t).rule)) || (s.At(t).WantSwap? && th == Swapping(s.At(t).loaded))
    ensures Inv(s.Move(t, th).(writer := Some(t)), initial)
  {
    var s' := s.Move(t, th).(writer := Some(t));
    assert forall u: nat :: s'.At(u) == if u == t then th else s.At(u);
    assert ThreadOK(s.engine, s.At(t));
  }

  lemma ReloadLockKeeps(s: Shared, t: nat, initial: RuleBook)
    requires Inv(s, initial) && s.At(t).WantReload? && s.reloader.None?
    ensures Inv(s.Move(t, Loading(New(true))).(reloader := Some(t)), initial)
  {
    var s' := s.Move(t, Loading(New(true))).(reloader := Some(t));
    assert forall u: nat :: s'.At(u) == if u == t then Loading(New(true)) else s.At(u);
    NewIndexed(true);
  }

  lemma LockKeeps(s: Shared, t: nat, a: Action, initial: RuleBook)
    requires Inv(s, initial)
    ensures Inv(Lock(s, t, a), initial)
  {
    if Lock(s, t, a) != s {
      match s.At(t)
      case WantRead(q) => ReadLockKeeps(s, t, q, initial);
      case WantAdd(rule) => WriteLockKeeps(s, t, Adding(rule), initial);
      case WantSwap(e) => WriteLockKeeps(s, t, Swapping(e), initial);
      case WantReload => ReloadLockKeeps(s, t, initial);
    }
  }

  lemma ReadUnlockKeeps(s: Shared, t: nat, initial: RuleBook)
    requires Inv(s, initial) && s.At(t).Decided?
    ensures Inv(s.Move(t, Idle).(readers := s.readers - {t}), initial)
  {
    var s' := s.Move(t, Idle).(readers := s.readers - {t});
    assert forall u: nat :: s'.At(u) == if u == t then Idle else s.At(u);
  }

  lemma OtherUnlockKeeps(s: Shared, t: nat, a: Action, initial: RuleBook)
    requires Inv(s, initial) && !s.At(t).Decided?
    ensures Inv(Unlock(s, t, a), initial)
  {
    var s' := Unlock(s, t, a);
    assert forall u: nat :: s'.At(u) == if u == t then s'.At(t) else s.At(u);
  }

  lemma UnlockKeeps(s: Shared, t: nat, a: Action, initial: RuleBook)
    requires Inv(s, initial)
    ensures Inv(Unlock(s, t, a), initial)
  {
    if s.At(t).Decided? {
      ReadUnlockKeeps(s, t, initial);
    } else {
      OtherUnlockKeeps(s, t, a, initial);
    }
  }

  lemma LogOne(book: RuleBook, initial: RuleBook, log: seq<Event>, e: Event)
    requires HistoryOK(book, initial, log) && Textual(e) && (e.Queried? ==> e.granted == Grants(book, e.query))
    ensures HistoryOK(After(book, e), initial, log + [e])
  {
    assert (log + [e])[..|log|] == log;
    assert forall x :: x in log + [e] ==> x in log || x == e;
  }

  lemma DecisionKeeps(s: Shared, t: nat, granted: bool, initial: RuleBook)
    requires Inv(s, initial) && s.At(t).Scanning? && granted == Grants(BookOf(s.engine), s.At(t).query)
    ensures var q := s.At(t).query;
            Inv(s.Move(t, Decided(q, granted)).(log := s.log + [Queried(q, granted)]), initial)
  {
    var q := s.At(t).query;
    var s' := s.Move(t, Decided(q, granted)).(log := s.log + [Queried(q, granted)]);
    assert forall u: nat :: s'.At(u) == if u == t then Decided(q, granted) else s.At(u);
    assert ThreadOK(s.engine, s.At(t));
    LogOne(BookOf(s.engine), initial, s.log, Queried(q, granted));
    assert s'.log[|s.log|] == Queried(q, granted);
  }

  lemma ReadKeeps(s: Shared, t: nat, initial: RuleBook)
    requires Inv(s, initial)
    ensures Inv(Read(s, t), initial)
  {
    if s.At(t).Scanning? {
      assert ThreadOK(s.engine, s.At(t));
      var q, left := s.At(t).query, s.At(t).left;
      if left == [] {
        DecisionKeeps(s, t, false, initial);
      } else if LessPermissive(q, s.engine.rules[left[0]]) {
        DecisionKeeps(s, t, true, initial);
      } else {
        MoveKeeps(s, t, Scanning(q, left[1..]), initial);
      }
    }
  }

  /** While a thread holds the write lock no other thread reads or writes. */
  lemma WriterAlone(s: Shared, t: nat, initial: RuleBook)
    requires Inv(s, initial) && s.At(t).HoldsWrite()
    ensures s.writer == Some(t) && s.readers == {}
    ensures forall u: nat :: !s.At(u).HoldsRead() && (u != t ==> !s.At(u).HoldsWrite())
  {
    assert forall u: nat :: u !in s.readers;
  }

  lemma AppendKeeps(s: Shared, t: nat, initial: RuleBook)
    requires Inv(s, initial) && s.At(t).Adding?
    ensures Inv(Write(s, t, AppendRule), initial)
  {
    var s', rule := Write(s, t, AppendRule), s.At(t).rule;
    WriterAlone(s, t, initial);
    assert forall u: nat :: s'.At(u) == if u == t then s'.At(t) else s.At(u);
    assert ThreadOK(s.engine, s.At(t));
    LogOne(BookOf(s.engine), initial, s.log, Added(rule));
    assert s'.engine.rules[..|s'.engine.rules| - 1] == s.engine.rules;
    assert s'.engine.(rules := s.engine.rules) == s.engine;
  }

  /** The second half of an addition restores the index. */
  lemma FiledInOrder(e: State)
    requires HalfAdded(e)
    ensures var e' := if e.indexEnabled then IndexLast(e) else e; InOrder(e') && e'.rules == e.rules
  {
    if e.indexEnabled {
      var n := |e.rules| - 1;
      var before := e.(rules := e.rules[..n]);
      IndexLastKeeps(before, e.rules[n]);
      assert Append(before, e.rules[n]) == e;
    }
  }

  lemma FileKeeps(s: Shared, t: nat, initial: RuleBook)
    requires Inv(s, initial) && s.At(t).Appended?
    ensures Inv(Write(s, t, FileRule), initial)
  {
    var s' := Write(s, t, FileRule);
    WriterAlone(s, t, initial);
    assert forall u: nat :: s'.At(u) == if u == t then s'.At(t) else s.At(u);
    FiledInOrder(s.engine);
  }

  lemma SwapKeeps(s: Shared, t: nat, initial: RuleBook)
    requires Inv(s, initial) && s.At(t).Swapping?
    ensures Inv(Write(s, t, Swap), initial)
  {
    var s' := Write(s, t, Swap);
    WriterAlone(s, t, initial);
    assert forall u: nat :: s'.At(u) == if u == t then s'.At(t) else s.At(u);
    assert ThreadOK(s.engine, s.At(t));
    LogOne(BookOf(s.engine), initial, s.log, Reloaded(s.At(t).loaded.rules));
  }

  lemma WriteKeeps(s: Shared, t: nat, a: Action, initial: RuleBook)
    requires Inv(s, initial)
    ensures Inv(Write(s, t, a), initial)
  {
    if Write(s, t, a) != s {
      if s.At(t).Adding? {
        AppendKeeps(s, t, initial);
      } else if s.At(t).Appended? {
        FileKeeps(s, t, initial);
      } else {
        SwapKeeps(s, t, initial);
      }
    }
  }

  lemma LoadKeeps(s: Shared, t: nat, a: Action, initial: RuleBook)
    requires Inv(s, initial)
    ensures Inv(Load(s, t, a), initial)
  {
    var s' := Load(s, t, a);
    if s' != s {
      assert ThreadOK(s.engine, s.At(t));
      if a.FinishLoad? {
        MoveKeeps(s, t, WantSwap(s.At(t).loaded), initial);
      } else if a.content.Some? && LoadedText(a.content.value, DEFAULTS, []).Done? {
        var e, rules := s.At(t).loaded, LoadedText(a.content.value, DEFAULTS, []).value;
        LoadedIsSimple(a.content.value, DEFAULTS, []);
        AddAllKeeps(e, rules);
        AddAllRules(e, rules);
        MoveKeeps(s, t, Loading(AddAll(e, rules)), initial);
      } else {
        MoveKeeps(s, t, LoadFailed, initial);
      }
    }
  }

  lemma StepKeeps(s: Shared, t: nat, a: Action, initial: RuleBook)
    requires Inv(s, initial)
    ensures Inv(Step(s, t, a), initial)
  {
    match a
    case BeginQuery(_) => BeginKeeps(s, t, a, initial);
    case BeginAdd(_) => BeginKeeps(s, t, a, initial);
    case BeginReload => BeginKeeps(s, t, a, initial);
    case AcquireRead => LockKeeps(s, t, a, initial);
    case AcquireWrite => LockKeeps(s, t, a, initial);
    case AcquireReload => LockKeeps(s, t, a, initial);
    case ReleaseRead => UnlockKeeps(s, t, a, initial);
    case ReleaseWrite => UnlockKeeps(s, t, a, initial);
    case ReleaseReload => UnlockKeeps(s, t, a, initial);
    case ReadNext => ReadKeeps(s, t, initial);
    case AppendRule => WriteKeeps(s, t, a, initial);
    case FileRule => WriteKeeps(s, t, a, initial);
    case Swap => WriteKeeps(s, t, a, initial);
    case LoadFile(_) => LoadKeeps(s, t, a, initial);
    case FinishLoad => LoadKeeps(s, t, a, initial);
  }

  lemma {:induction false} RunKeeps(engine: State, steps: seq<(nat, Action)>)
    requires InOrder(engine)
    ensures Inv(Run(Start(engine), steps), BookOf(engine))
    decreases |steps|
  {
    if steps != [] {
      var n := |steps| - 1;
      RunKeeps(engine, steps[..n]);
      StepKeeps(Run(Start(engine), steps[..n]), steps[n].0, steps[n].1, BookOf(engine));
    }
  }

  // -------------------------------------------------------------------- theorems

  /** The answers given are those of one sequential history of queries, additions and
      reloads, and the live rule book is what that history leaves. */
  ghost predicate Explained(s: Shared, initial: RuleBook)
  {
    Legal(initial, s.log) && BookOf(s.engine) == Replay(initial, s.log)
  }

  /** Over every interleaving of any number of threads, whatever the rules, one sequential
      history explains all answers, and the live rule book is what it leaves. */
  lemma HistoryExplains(engine: State, steps: seq<(nat, Action)>)
    requires InOrder(engine)
    ensures Explained(Run(Start(engine), steps), BookOf(engine))
  {
    RunKeeps(engine, steps);
  }

  /** The same with linear scans over all rules for answers. */
  ghost predicate LegalByScan(book: RuleBook, log: seq<Event>)
    decreases |log|
  {
    log == [] ||
    (LegalByScan(book, log[..|log| - 1]) &&
     match log[|log| - 1]
     case Queried(q, granted) => granted == Authorized(Replay(book, log[..|log| - 1]).rules, q)
     case _ => true)
  }

  lemma {:induction false} TextHidesNothing(book: RuleBook, log: seq<Event>)
    requires NothingHidden(book) && Legal(book, log) && forall e :: e in log ==> Textual(e)
    ensures NothingHidden(Replay(book, log)) && LegalByScan(book, log)
    decreases |log|
  {
    if log != [] {
      var front, last := log[..|log| - 1], log[|log| - 1];
      TextHidesNothing(book, front);
      assert Textual(last);
      match last
      case Queried(q, _) => GrantsByScan(Replay(book, front), q);
      case Added(_) =>
      case Reloaded(rules) =>
        forall i | 0 <= i < |rules| ensures !CoversLists(rules[i]) {
          assert StarFree(rules[i]);
        }
    }
  }

  /** When no rule is hidden at the start, none ever is, and all answers are those of
      linear scans. */
  lemma HistoryScans(engine: State, steps: seq<(nat, Action)>)
    requires InOrder(engine) && NothingHidden(BookOf(engine))
    ensures LegalByScan(BookOf(engine), Run(Start(engine), steps).log)
  {
    RunKeeps(engine, steps);
    TextHidesNothing(BookOf(engine), Run(Start(engine), steps).log);
  }

  /** While any query is being answered no rule is in the list but not in the index. */
  ghost predicate ReadersSeeOrder(s: Shared)
  {
    forall t: nat :: s.At(t).HoldsRead() ==> InOrder(s.engine) && forall u: nat :: !s.At(u).Appended?
  }

  /** Over every interleaving, no query meets a rule that is appended but not filed. */
  lemma NoHalfAddedSeen(engine: State, steps: seq<(nat, Action)>)
    requires InOrder(engine)
    ensures ReadersSeeOrder(Run(Start(engine), steps))
  {
    RunKeeps(engine, steps);
    var s := Run(Start(engine), steps);
    forall t: nat | s.At(t).HoldsRead() ensures InOrder(s.engine) && forall u: nat :: !s.At(u).Appended? {
      assert t in s.readers;
    }
  }

  ghost predicate CanMove(s: Shared, t: nat)
  {
    exists a :: Step(s, t, a) != s
  }

  lemma MovesBy(s: Shared, t: nat, a: Action)
    requires Step(s, t, a).At(t) != s.At(t)
    ensures CanMove(s, t)
  {
  }

  lemma ReaderMoves(s: Shared, t: nat, initial: RuleBook)
    requires Inv(s, initial) && s.At(t).HoldsRead()
    ensures CanMove(s, t)
  {
    assert ThreadOK(s.engine, s.At(t));
    MovesBy(s, t, if s.At(t).Scanning? then ReadNext else ReleaseRead);
  }

  lemma WriterMoves(s: Shared, t: nat, initial: RuleBook)
    requires Inv(s, initial) && s.At(t).HoldsWrite()
    ensures CanMove(s, t)
  {
    match s.At(t)
    case Adding(_) => MovesBy(s, t, AppendRule);
    case Appended(_) => MovesBy(s, t, FileRule);
    case Swapping(_) => MovesBy(s, t, Swap);
    case _ => MovesBy(s, t, ReleaseWrite);
  }

  /** A thread that waits for no lock can always move. */
  lemma UnblockedMoves(s: Shared, t: nat, initial: RuleBook)
    requires Inv(s, initial)
    requires !s.At(t).Idle? && !s.At(t).WantRead? && !s.At(t).WantAdd? && !s.At(t).WantReload? && !s.At(t).WantSwap?
    ensures CanMove(s, t)
  {
    if s.At(t).HoldsRead() {
      ReaderMoves(s, t, initial);
    } else if s.At(t).HoldsWrite() {
      WriterMoves(s, t, initial);
    } else {
      MovesBy(s, t, if s.At(t).Loading? then FinishLoad else ReleaseReload);
    }
  }

  /** No deadlock: in every reachable state in which some call is under way, some call
      can take a step. */
  lemma NoDeadlock(engine: State, steps: seq<(nat, Action)>, t: nat)
    requires InOrder(engine)
    requires !Run(Start(engine), steps).At(t).Idle?
    ensures exists u :: !Run(Start(engine), steps).At(u).Idle? && CanMove(Run(Start(engine), steps), u)
  {
    RunKeeps(engine, steps);
    var s := Run(Start(engine), steps);
    if s.writer.Some? {
      assert s.At(s.writer.value).HoldsWrite();
      UnblockedMoves(s, s.writer.value, BookOf(engine));
    } else if s.readers != {} {
      var u :| u in s.readers;
      assert s.At(u).HoldsRead();
      UnblockedMoves(s, u, BookOf(engine));
    } else if s.reloader.Some? {
      var u := s.reloader.value;
      assert s.At(u).HoldsReload();
      if s.At(u).WantSwap? {
        MovesBy(s, u, AcquireWrite);
      } else {
        UnblockedMoves(s, u, BookOf(engine));
      }
    } else {
      match s.At(t)
      case WantRead(_) => MovesBy(s, t, AcquireRead);
      case WantAdd(_) => MovesBy(s, t, AcquireWrite);
      case WantSwap(_) => MovesBy(s, t, AcquireWrite);
      case WantReload => MovesBy(s, t, AcquireReload);
      case _ => UnblockedMoves(s, t, BookOf(engine));
    }
  }
}

/** Calls and the history they make: every call of the concurrent server, watched from its
    beginning to its return, with the place of its event in the history. */
module Histories {

  import opened Wrappers
  import opened ByteStrings
  import opened Elements
  import opened Parsing
  import opened Engines
  import EngineProofs
  import opened TextFiles
  import opened Servers
  import opened Concurrency

  datatype Operation = QueryCall(query: Element) | AddCall(rule: Element) | ReloadCall

  datatype Result = Granted(granted: bool) | Accepted | Refused

  /** What a call returned, and how long the history was then. */
  datatype Return = Return(at: nat, result: Result)

  /** A rule file that ended a reload: one that could not be read, or did not load. */
  datatype Broken = Unreadable | Unloadable(content: Bytes)

  /** A call: what was asked, the length of the history when it began, the rule files it has
      read, the one that ended it, and the place of its event. */
  datatype Call = Call(
    thread: nat, asked: Action, operation: Operation, start: nat, files: seq<Bytes>, broken: Option<Broken>,
    effect: Option<nat>, finish: Option<Return>)

  /** An observed run: all calls in the order they began, the call each busy thread is in,
      and the call behind each event. */
  datatype Traced = Traced(s: Shared, calls: seq<Call>, current: map<nat, nat>, owners: seq<nat>)

  function OperationOf(th: Thread): Operation
  {
    match th
    case WantRead(q) => QueryCall(q)
    case WantAdd(rule) => AddCall(rule)
    case _ => ReloadCall
  }

  function ResultOf(th: Thread): Result
  {
    match th
    case Decided(_, granted) => Granted(granted)
    case LoadFailed => Refused
    case _ => Accepted
  }

  /** What the action asks for. */
  predicate Asks(a: Action, operation: Operation)
  {
    match operation
    case QueryCall(q) => a.BeginQuery? && ParseText(a.text).Parsed? && ParseText(a.text).value == q
    case AddCall(rule) => a.BeginAdd? && ParseText(a.text).Parsed? && ParseText(a.text).value == rule
    case ReloadCall => a.BeginReload?
  }

  /** A loading call has the file noted that is read. */
  function Noted(call: Call, th: Thread, a: Action): Call
  {
    if !th.Loading? || !a.LoadFile? then call
    else
      match a.content
      case None => call.(broken := Some(Unreadable))
      case Some(content) =>
        match LoadedText(content, DEFAULTS, [])
        case Done(_) => call.(files := call.files + [content])
        case Failed => call.(broken := Some(Unloadable(content)))
        case Crashed => call
  }

  /** A step taken: who, what, and the state it left. */
  datatype Tick = Tick(t: nat, a: Action, after: Shared)

  /** One step, observed. */
  function Observe(tr: Traced, tick: Tick): Traced
  {
    var t, s, s' := tick.t, tr.s, tick.after;
    if s.At(t).Idle? && !s'.At(t).Idle? then
      var begun := Call(t, tick.a, OperationOf(s'.At(t)), |s.log|, [], None, None, None);
      Traced(s', tr.calls + [begun], tr.current[t := |tr.calls|], tr.owners)
    else if t !in tr.current || tr.current[t] >= |tr.calls| then tr.(s := s')
    else
      var i := tr.current[t];
      var call := tr.calls[i];
      if |s'.log| > |s.log| then
        Traced(s', tr.calls[i := call.(effect := Some(|s.log|))], tr.current, tr.owners + [i])
      else if s'.At(t).Idle? then
        var returned := Return(|s.log|, ResultOf(s.At(t)));
        Traced(s', tr.calls[i := call.(finish := Some(returned))], tr.current - {t}, tr.owners)
      else tr.(s := s', calls := tr.calls[i := Noted(call, s.At(t), tick.a)])
  }

  function Watch(start: Shared, ticks: seq<Tick>): Traced
    decreases |ticks|
  {
    if ticks == [] then Traced(start, [], map[], [])
    else Observe(Watch(start, ticks[..|ticks| - 1]), ticks[|ticks| - 1])
  }

  /** The steps of a run. */
  function Ticks(engine: State, steps: seq<(nat, Action)>): (ticks: seq<Tick>)
    ensures |ticks| == |steps|
  {
    seq(|steps|, k requires 0 <= k < |steps| =>
      Tick(steps[k].0, steps[k].1, Run(Start(engine), steps[..k + 1])))
  }

  // -------------------------------------------------------------- what a step does

  /** The moves of one thread, each with the event it adds to the history. */
  predicate Moves(th: Thread, th': Thread, e: Option<Event>)
  {
    match th
    case Idle => e == None && (th'.Idle? || th'.WantRead? || th'.WantAdd? || th'.WantReload?)
    case WantRead(q) => e == None && (th' == th || (th'.Scanning? && th'.query == q))
    case Scanning(q, _) =>
      || (e == None && th'.Scanning? && th'.query == q)
      || (th'.Decided? && th'.query == q && e == Some(Queried(q, th'.granted)))
    case Decided(_, _) => e == None && (th' == th || th'.Idle?)
    case WantAdd(rule) => e == None && (th' == th || th' == Adding(rule))
    case Adding(rule) => (e == None && th' == th) || (e == Some(Added(rule)) && th' == Appended(rule))
    case Appended(_) => e == None && (th' == th || th'.AddDone?)
    case AddDone => e == None && (th' == th || th'.Idle?)
    case WantReload => e == None && (th' == th || th' == Loading(New(true)))
    case Loading(loaded) => e == None && (th'.Loading? || th'.LoadFailed? || th' == WantSwap(loaded))
    case LoadFailed => e == None && (th' == th || th'.Idle?)
    case WantSwap(loaded) => e == None && (th' == th || th' == Swapping(loaded))
    case Swapping(loaded) => (e == None && th' == th) || (e == Some(Reloaded(loaded.rules)) && th'.SwapDone?)
    case SwapDone => e == None && (th' == th || th'.ReloadDone?)
    case ReloadDone => e == None && (th' == th || th'.Idle?)
  }

  function EventOf(log: seq<Event>, log': seq<Event>): Option<Event>
  {
    if |log'| == |log| + 1 then Some(log'[|log|]) else None
  }

  /** What a loading thread does with a file: a file that loads adds its rules, one that
      cannot be read or loaded ends the reload, and one that panics ends everything. */
  predicate Loads(th: Thread, th': Thread, a: Action)
  {
    th.Loading? ==>
      if !a.LoadFile? then th' == th || th' == WantSwap(th.loaded)
      else
        match a.content
        case None => th'.LoadFailed?
        case Some(content) =>
          match LoadedText(content, DEFAULTS, [])
          case Done(rules) => th'.Loading? && th'.loaded.rules == th.loaded.rules + rules
          case Failed => th'.LoadFailed?
          case Crashed => th' == th
  }

  /** One thread moves; the history grows by its event; only writers change the engine. */
  ghost predicate Moved(s: Shared, tick: Tick)
  {
    var t, s' := tick.t, tick.after;
    && (forall u: nat :: u != t ==> s'.At(u) == s.At(u))
    && (s'.log == s.log || (|s'.log| == |s.log| + 1 && s.log <= s'.log))
    && Moves(s.At(t), s'.At(t), EventOf(s.log, s'.log))
    && Loads(s.At(t), s'.At(t), tick.a)
    && (s.At(t).Idle? && !s'.At(t).Idle? ==> Asks(tick.a, OperationOf(s'.At(t))))
    && (s'.engine != s.engine ==>
        s'.At(t) != s.At(t) && (s.At(t).Adding? || s.At(t).Appended? || s.At(t).Swapping?))
  }

  lemma FileLoads(s: Shared, t: nat, content: Option<Bytes>)
    requires s.At(t).Loading?
    ensures Loads(s.At(t), Load(s, t, LoadFile(content)).At(t), LoadFile(content))
  {
    if content.Some? && LoadedText(content.value, DEFAULTS, []).Done? {
      EngineProofs.AddAllRules(s.At(t).loaded, LoadedText(content.value, DEFAULTS, []).value);
    }
  }

  lemma StepLoads(s: Shared, t: nat, a: Action)
    ensures Loads(s.At(t), Step(s, t, a).At(t), a)
  {
    if s.At(t).Loading? {
      match a
      case LoadFile(content) => FileLoads(s, t, content);
      case _ =>
    }
  }

  lemma StepMoves(s: Shared, t: nat, a: Action)
    ensures Moved(s, Tick(t, a, Step(s, t, a)))
  {
    StepLoads(s, t, a);
  }

  function Before(start: Shared, ticks: seq<Tick>, k: nat): Shared
    requires k <= |ticks|
  {
    if k == 0 then start else ticks[k - 1].after
  }

  ghost predicate Moving(start: Shared, ticks: seq<Tick>)
  {
    forall k :: 0 <= k < |ticks| ==> Moved(Before(start, ticks, k), ticks[k])
  }

  lemma TickMoves(engine: State, steps: seq<(nat, Action)>, m: nat)
    requires m < |steps|
    ensures Moved(Run(Start(engine), steps[..m]), Ticks(engine, steps)[m])
  {
    var s, s' := Run(Start(engine), steps[..m]), Run(Start(engine), steps[..m + 1]);
    assert steps[..m + 1][..m] == steps[..m];
    assert s' == Step(s, steps[m].0, steps[m].1);
    StepMoves(s, steps[m].0, steps[m].1);
  }

  lemma RunMoves(engine: State, steps: seq<(nat, Action)>)
    ensures Moving(Start(engine), Ticks(engine, steps))
  {
    var ticks := Ticks(engine, steps);
    forall k | 0 <= k < |ticks| ensures Moved(Before(Start(engine), ticks, k), ticks[k]) {
      assert k == 0 ==> steps[..k] == [];
      TickMoves(engine, steps, k);
    }
  }

  // ------------------------------------------------------------------- invariant

  /** The event is what the call asks for; a reload's is the rules of the files it read. */
  predicate Own(c: Call, e: Event)
  {
    match c.operation
    case QueryCall(q) => e.Queried? && e.query == q
    case AddCall(rule) => e == Added(rule)
    case ReloadCall => e.Reloaded? && FileRules(c.files) == Done(e.rules)
  }

  /** A file that could not be read, or that does not load, ended the call. */
  predicate FileBroke(c: Call)
  {
    c.broken.Some? && (c.broken.value.Unloadable? ==> LoadedText(c.broken.value.content, DEFAULTS, []).Failed?)
  }

  /** What a return says of the call's event: the answer a query gets is its event's, an
      accepted call has an event, and only reloads are refused, by a file, without one. */
  predicate ReturnOK(c: Call, log: seq<Event>, result: Result)
    requires c.effect.Some? ==> c.effect.value < |log|
  {
    match result
    case Granted(granted) =>
      c.operation.QueryCall? && c.effect.Some? && log[c.effect.value] == Queried(c.operation.query, granted)
    case Accepted => c.effect.Some? && !c.operation.QueryCall? && c.broken.None?
    case Refused => c.effect.None? && c.operation.ReloadCall? && FileBroke(c)
  }

  /** The call's event is its own and lies between the call's beginning and its return. */
  predicate CallOK(c: Call, log: seq<Event>)
  {
    && c.start <= |log| && Asks(c.asked, c.operation)
    && (c.effect.Some? ==> c.start <= c.effect.value < |log| && Own(c, log[c.effect.value]))
    && (c.finish.Some? ==>
        && c.start <= c.finish.value.at <= |log|
        && (c.effect.Some? ==> c.effect.value < c.finish.value.at)
        && ReturnOK(c, log, c.finish.value.result))
  }

  predicate Reloading(c: Call)
  {
    c.operation.ReloadCall? && c.effect.None? && c.broken.None?
  }

  /** How far a thread is with its call. */
  predicate Phase(th: Thread, c: Call, log: seq<Event>)
  {
    match th
    case Idle => false
    case WantRead(q) => c.operation == QueryCall(q) && c.effect.None?
    case Scanning(q, _) => c.operation == QueryCall(q) && c.effect.None?
    case Decided(q, granted) =>
      c.operation == QueryCall(q) && c.effect.Some? && c.effect.value < |log| &&
      log[c.effect.value] == Queried(q, granted)
    case WantAdd(rule) => c.operation == AddCall(rule) && c.effect.None? && c.broken.None?
    case Adding(rule) => c.operation == AddCall(rule) && c.effect.None? && c.broken.None?
    case Appended(_) => c.operation.AddCall? && c.effect.Some? && c.broken.None?
    case AddDone => c.operation.AddCall? && c.effect.Some? && c.broken.None?
    case WantReload => Reloading(c) && c.files == []
    case Loading(loaded) => Reloading(c) && FileRules(c.files) == Done(loaded.rules)
    case LoadFailed => c.operation.ReloadCall? && c.effect.None? && FileBroke(c)
    case WantSwap(loaded) => Reloading(c) && FileRules(c.files) == Done(loaded.rules)
    case Swapping(loaded) => Reloading(c) && FileRules(c.files) == Done(loaded.rules)
    case SwapDone => c.operation.ReloadCall? && c.effect.Some? && c.broken.None?
    case ReloadDone => c.operation.ReloadCall? && c.effect.Some? && c.broken.None?
  }

  ghost predicate InCall(tr: Traced, t: nat, i: int)
  {
    t in tr.current && tr.current[t] == i
  }

  /** A thread is busy exactly while it is in a call, which is its own. */
  ghost predicate ThreadTraced(tr: Traced, t: nat)
  {
    if t in tr.current then
      && tr.current[t] < |tr.calls|
      && tr.calls[tr.current[t]].thread == t
      && tr.calls[tr.current[t]].finish.None?
      && Phase(tr.s.At(t), tr.calls[tr.current[t]], tr.s.log)
    else tr.s.At(t).Idle?
  }

  ghost predicate CallTraced(tr: Traced, i: int)
    requires 0 <= i < |tr.calls|
  {
    && CallOK(tr.calls[i], tr.s.log)
    && (tr.calls[i].finish.None? ==> InCall(tr, tr.calls[i].thread, i))
    && (tr.calls[i].effect.Some? ==>
        tr.calls[i].effect.value < |tr.owners| && tr.owners[tr.calls[i].effect.value] == i)
  }

  ghost predicate EventOwned(tr: Traced, k: int)
    requires 0 <= k < |tr.owners|
  {
    tr.owners[k] < |tr.calls| && tr.calls[tr.owners[k]].effect == Some(k)
  }

  ghost predicate WellTraced(tr: Traced)
  {
    && |tr.owners| == |tr.s.log|
    && (forall t: nat :: ThreadTraced(tr, t))
    && (forall i :: 0 <= i < |tr.calls| ==> CallTraced(tr, i))
    && (forall k :: 0 <= k < |tr.owners| ==> EventOwned(tr, k))
  }

  /** A longer history keeps what was said of a call. */
  lemma LongerHistory(th: Thread, c: Call, log: seq<Event>, log': seq<Event>)
    requires log <= log'
    ensures CallOK(c, log) ==> CallOK(c, log')
    ensures Phase(th, c, log) ==> Phase(th, c, log')
  {
  }

  // ------------------------------------------------------- every step keeps it

  lemma {:induction false} FileRulesSnoc(files: seq<Bytes>, content: Bytes)
    requires FileRules(files).Done? && LoadedText(content, DEFAULTS, []).Done?
    ensures FileRules(files + [content]) == Done(FileRules(files).value + LoadedText(content, DEFAULTS, []).value)
  {
    if files == [] {
      assert [content][1..] == [] && [] + [content] == [content];
      var rules := LoadedText(content, DEFAULTS, []).value;
      assert rules + [] == rules && [] + rules == rules;
    } else {
      assert (files + [content])[1..] == files[1..] + [content] && (files + [content])[0] == files[0];
      FileRulesSnoc(files[1..], content);
      var last := LoadedText(content, DEFAULTS, []);
      PrependTwice(LoadedText(files[0], DEFAULTS, []).value, FileRules(files[1..]).value, last);
    }
  }

  lemma BeginKeeps(tr: Traced, tick: Tick)
    requires WellTraced(tr) && Moved(tr.s, tick) && tr.s.At(tick.t).Idle? && !tick.after.At(tick.t).Idle?
    ensures WellTraced(Observe(tr, tick))
  {
    var t := tick.t;
    var tr', n := Observe(tr, tick), |tr.calls|;
    assert ThreadTraced(tr, t);
    forall u: nat ensures ThreadTraced(tr', u) {
      assert ThreadTraced(tr, u);
    }
    forall i | 0 <= i < |tr'.calls| ensures CallTraced(tr', i) {
      if i < n {
        assert CallTraced(tr, i);
      }
    }
    forall k | 0 <= k < |tr'.owners| ensures EventOwned(tr', k) {
      assert EventOwned(tr, k);
    }
  }

  /** Steps within a call: one call changes, by its own thread, and the history grows by
      its event or not at all. */
  lemma InsideKeeps(tr: Traced, tr': Traced, t: nat)
    requires WellTraced(tr) && t in tr.current && tr.current[t] < |tr.calls| && ThreadTraced(tr', t)
    requires forall u: nat :: u != t ==> tr'.s.At(u) == tr.s.At(u)
    requires tr.s.log <= tr'.s.log && |tr'.owners| == |tr'.s.log|
    requires var i := tr.current[t];
             && |tr'.calls| == |tr.calls| && (forall j :: 0 <= j < |tr.calls| && j != i ==> tr'.calls[j] == tr.calls[j])
             && CallTraced(tr', i)
             && (forall u: nat :: u != t ==> (u in tr'.current <==> u in tr.current))
             && (forall u: nat :: u != t && u in tr.current ==> tr'.current[u] == tr.current[u])
             && tr.owners <= tr'.owners
             && (forall k :: 0 <= k < |tr'.owners| ==>
                 (k < |tr.owners| && tr.owners[k] != i) || EventOwned(tr', k))
    ensures WellTraced(tr')
  {
    var i := tr.current[t];
    assert ThreadTraced(tr, t);
    forall u: nat ensures ThreadTraced(tr', u) {
      assert ThreadTraced(tr, u);
      if u != t && u in tr.current {
        LongerHistory(tr.s.At(u), tr.calls[tr.current[u]], tr.s.log, tr'.s.log);
      }
    }
    forall j | 0 <= j < |tr'.calls| ensures CallTraced(tr', j) {
      assert CallTraced(tr, j);
      if j != i {
        LongerHistory(Idle, tr.calls[j], tr.s.log, tr'.s.log);
      }
    }
    forall k | 0 <= k < |tr'.owners| ensures EventOwned(tr', k) {
      if k < |tr.owners| {
        assert EventOwned(tr, k);
      }
    }
  }

  lemma EffectKeeps(tr: Traced, tick: Tick)
    requires WellTraced(tr) && Moved(tr.s, tick) && tick.t in tr.current && |tick.after.log| > |tr.s.log|
    ensures WellTraced(Observe(tr, tick))
  {
    var t, tr' := tick.t, Observe(tr, tick);
    var i := tr.current[t];
    assert ThreadTraced(tr, t) && CallTraced(tr, i);
    assert tr.s.log <= tr'.s.log && tr'.s.log[|tr.s.log|] == EventOf(tr.s.log, tr'.s.log).value;
    assert tr'.owners[|tr.owners|] == i && EventOwned(tr', |tr.owners|);
    forall k | 0 <= k < |tr.owners| ensures tr.owners[k] != i {
      assert EventOwned(tr, k);
    }
    InsideKeeps(tr, tr', t);
  }

  lemma ReturnKeeps(tr: Traced, tick: Tick)
    requires WellTraced(tr) && Moved(tr.s, tick) && tick.t in tr.current
    requires |tick.after.log| == |tr.s.log| && tick.after.At(tick.t).Idle?
    ensures WellTraced(Observe(tr, tick))
  {
    var t, tr' := tick.t, Observe(tr, tick);
    var i := tr.current[t];
    assert ThreadTraced(tr, t) && CallTraced(tr, i);
    forall k | 0 <= k < |tr'.owners| ensures EventOwned(tr', k) {
      assert EventOwned(tr, k);
    }
    InsideKeeps(tr, tr', t);
  }

  lemma OtherKeeps(tr: Traced, tick: Tick)
    requires WellTraced(tr) && Moved(tr.s, tick) && tick.t in tr.current
    requires |tick.after.log| == |tr.s.log| && !tick.after.At(tick.t).Idle?
    ensures WellTraced(Observe(tr, tick))
  {
    var t, tr' := tick.t, Observe(tr, tick);
    var i := tr.current[t];
    assert ThreadTraced(tr, t) && CallTraced(tr, i);
    if tr.s.At(t).Loading? && tick.a.LoadFile? && tick.a.content.Some? {
      if LoadedText(tick.a.content.value, DEFAULTS, []).Done? {
        FileRulesSnoc(tr.calls[i].files, tick.a.content.value);
      }
    }
    forall k | 0 <= k < |tr'.owners| ensures EventOwned(tr', k) {
      assert EventOwned(tr, k);
    }
    InsideKeeps(tr, tr', t);
  }

  lemma ObserveKeeps(tr: Traced, tick: Tick)
    requires WellTraced(tr) && Moved(tr.s, tick)
    ensures WellTraced(Observe(tr, tick))
  {
    var t := tick.t;
    assert ThreadTraced(tr, t);
    if tr.s.At(t).Idle? {
      assert t !in tr.current;
      if tick.after.At(t).Idle? {
        IdleKeeps(tr, tick);
      } else {
        BeginKeeps(tr, tick);
      }
    } else if |tick.after.log| > |tr.s.log| {
      EffectKeeps(tr, tick);
    } else if tick.after.At(t).Idle? {
      ReturnKeeps(tr, tick);
    } else {
      OtherKeeps(tr, tick);
    }
  }

  lemma IdleKeeps(tr: Traced, tick: Tick)
    requires WellTraced(tr) && Moved(tr.s, tick) && tick.t !in tr.current
    requires tr.s.At(tick.t).Idle? && tick.after.At(tick.t).Idle?
    ensures WellTraced(Observe(tr, tick))
  {
    var t, tr' := tick.t, Observe(tr, tick);
    forall u: nat ensures ThreadTraced(tr', u) {
      assert ThreadTraced(tr, u);
    }
    forall i | 0 <= i < |tr'.calls| ensures CallTraced(tr', i) {
      assert CallTraced(tr, i);
    }
    forall k | 0 <= k < |tr'.owners| ensures EventOwned(tr', k) {
      assert EventOwned(tr, k);
    }
  }

  lemma {:induction false} WatchKeeps(start: Shared, ticks: seq<Tick>)
    requires Moving(start, ticks) && start.log == [] && forall t: nat :: start.At(t).Idle?
    ensures WellTraced(Watch(start, ticks)) && Watch(start, ticks).s == Before(start, ticks, |ticks|)
    decreases |ticks|
  {
    if ticks != [] {
      var n := |ticks| - 1;
      MovingFront(start, ticks, n);
      WatchKeeps(start, ticks[..n]);
      KeepsSnoc(start, ticks, n);
    }
  }

  lemma WatchSnoc(start: Shared, ticks: seq<Tick>, m: nat)
    requires m < |ticks|
    ensures Watch(start, ticks[..m + 1]) == Observe(Watch(start, ticks[..m]), ticks[m])
  {
    assert ticks[..m + 1][..m] == ticks[..m];
  }

  lemma KeepsSnoc(start: Shared, ticks: seq<Tick>, n: nat)
    requires |ticks| == n + 1 && Moved(Before(start, ticks, n), ticks[n])
    requires WellTraced(Watch(start, ticks[..n])) && Watch(start, ticks[..n]).s == Before(start, ticks[..n], n)
    ensures WellTraced(Watch(start, ticks)) && Watch(start, ticks).s == Before(start, ticks, n + 1)
  {
    WatchSnoc(start, ticks, n);
    assert ticks[..n + 1] == ticks;
    ObserveKeeps(Watch(start, ticks[..n]), ticks[n]);
  }

  lemma MovingFront(start: Shared, ticks: seq<Tick>, m: nat)
    requires Moving(start, ticks) && m <= |ticks|
    ensures Moving(start, ticks[..m])
  {
    forall k | 0 <= k < m ensures Moved(Before(start, ticks[..m], k), ticks[..m][k]) {
      assert Before(start, ticks[..m], k) == Before(start, ticks, k);
      assert Moved(Before(start, ticks, k), ticks[k]);
    }
  }

  /** A run of the server, observed. */
  function Observed(engine: State, steps: seq<(nat, Action)>): Traced
  {
    Watch(Start(engine), Ticks(engine, steps))
  }

  lemma ObservedRun(engine: State, steps: seq<(nat, Action)>)
    ensures WellTraced(Observed(engine, steps))
    ensures Observed(engine, steps).s == Run(Start(engine), steps)
  {
    var ticks := Ticks(engine, steps);
    RunMoves(engine, steps);
    WatchKeeps(Start(engine), ticks);
    LastState(engine, steps);
  }

  lemma LastState(engine: State, steps: seq<(nat, Action)>)
    ensures Before(Start(engine), Ticks(engine, steps), |steps|) == Run(Start(engine), steps)
  {
    assert steps[..|steps|] == steps;
  }

  lemma ObservedFront(engine: State, steps: seq<(nat, Action)>, m: nat)
    requires m <= |steps|
    ensures Ticks(engine, steps)[..m] == Ticks(engine, steps[..m])
  {
    forall k | 0 <= k < m ensures Ticks(engine, steps)[k] == Ticks(engine, steps[..m])[k] {
      assert steps[..m][..k + 1] == steps[..k + 1];
    }
  }

  // ------------------------------------------------------------------ theorems

  /** The calls of a run and its history fit: every call's event is its own and lies
      between the call's beginning and its return, every event is one call's, and no two
      calls share one. */
  ghost predicate Matched(tr: Traced)
  {
    && (forall i :: 0 <= i < |tr.calls| ==> CallOK(tr.calls[i], tr.s.log))
    && (forall k :: 0 <= k < |tr.s.log| ==> EventOfSome(tr, k))
    && (forall i, j :: 0 <= i < j < |tr.calls| && tr.calls[i].effect.Some? ==>
        tr.calls[i].effect != tr.calls[j].effect)
  }

  ghost predicate EventOfSome(tr: Traced, k: nat)
  {
    exists i :: 0 <= i < |tr.calls| && tr.calls[i].effect == Some(k)
  }

  /** Linearizability, over every interleaving and for every engine in order: the history
      explains all answers and the live rule book, and it places the event of each call,
      which is that call's alone, between the call's beginning and its return. */
  lemma Linearizable(engine: State, steps: seq<(nat, Action)>)
    requires InOrder(engine)
    ensures var tr := Observed(engine, steps);
            tr.s == Run(Start(engine), steps) && Explained(tr.s, EngineProofs.BookOf(engine)) && Matched(tr)
  {
    var tr := Observed(engine, steps);
    ObservedRun(engine, steps);
    HistoryExplains(engine, steps);
    forall i | 0 <= i < |tr.calls| ensures CallOK(tr.calls[i], tr.s.log) {
      assert CallTraced(tr, i);
    }
    forall k: nat | k < |tr.s.log| ensures EventOfSome(tr, k) {
      assert EventOwned(tr, k);
    }
    forall i, j | 0 <= i < j < |tr.calls| && tr.calls[i].effect.Some?
      ensures tr.calls[i].effect != tr.calls[j].effect
    {
      assert CallTraced(tr, i) && CallTraced(tr, j);
    }
  }

  /** What later steps leave of a call: all but its files, its event and its return, and
      the last two for good once they are there. */
  predicate Continues(c: Call, c': Call)
  {
    && c'.thread == c.thread && c'.asked == c.asked && c'.operation == c.operation && c'.start == c.start
    && (c.effect.Some? ==> c'.effect == c.effect)
    && (c.finish.Some? ==> c' == c)
  }

  ghost predicate Later(tr: Traced, tr': Traced)
  {
    && |tr.calls| <= |tr'.calls| && |tr.s.log| <= |tr'.s.log|
    && (forall i :: 0 <= i < |tr.calls| ==> Continues(tr.calls[i], tr'.calls[i]))
    && (forall i :: |tr.calls| <= i < |tr'.calls| ==> |tr.s.log| <= tr'.calls[i].start)
  }

  lemma ObserveLater(first: Traced, tr: Traced, tick: Tick)
    requires Later(first, tr) && WellTraced(tr) && Moved(tr.s, tick)
    ensures Later(first, Observe(tr, tick))
  {
    assert ThreadTraced(tr, tick.t);
    var tr' := Observe(tr, tick);
    forall i | 0 <= i < |first.calls| ensures Continues(first.calls[i], tr'.calls[i]) {
      assert Continues(first.calls[i], tr.calls[i]) && Continues(tr.calls[i], tr'.calls[i]);
    }
  }

  lemma {:induction false} WatchLater(first: Traced, start: Shared, ticks: seq<Tick>, m: nat)
    requires Moving(start, ticks) && start.log == [] && forall t: nat :: start.At(t).Idle?
    requires m <= |ticks| && Later(first, Watch(start, ticks[..m]))
    ensures Later(first, Watch(start, ticks))
    decreases |ticks|
  {
    if m == |ticks| {
      assert ticks[..m] == ticks;
    } else {
      var n := |ticks| - 1;
      MovingFront(start, ticks, n);
      assert Watch(start, ticks[..n][..m]) == Watch(start, ticks[..m]) by {
        assert ticks[..n][..m] == ticks[..m];
      }
      WatchLater(first, start, ticks[..n], m);
      WatchKeeps(start, ticks[..n]);
      LaterSnoc(first, start, ticks, n);
    }
  }

  lemma LaterSnoc(first: Traced, start: Shared, ticks: seq<Tick>, n: nat)
    requires |ticks| == n + 1 && Moved(Before(start, ticks, n), ticks[n])
    requires Watch(start, ticks[..n]).s == Before(start, ticks[..n], n)
    requires WellTraced(Watch(start, ticks[..n])) && Later(first, Watch(start, ticks[..n]))
    ensures Later(first, Watch(start, ticks))
  {
    WatchSnoc(start, ticks, n);
    assert ticks[..n + 1] == ticks;
    ObserveLater(first, Watch(start, ticks[..n]), ticks[n]);
  }

  lemma ObservedStep(engine: State, steps: seq<(nat, Action)>, m: nat)
    requires m < |steps|
    ensures Observed(engine, steps[..m + 1]) == Observe(Observed(engine, steps[..m]), Ticks(engine, steps)[m])
  {
    ObservedFront(engine, steps, m);
    ObservedFront(engine, steps, m + 1);
    WatchSnoc(Start(engine), Ticks(engine, steps), m);
  }

  lemma ObservedLater(engine: State, steps: seq<(nat, Action)>, m: nat)
    requires m <= |steps|
    ensures Later(Observed(engine, steps[..m]), Observed(engine, steps))
  {
    RunMoves(engine, steps);
    ObservedFront(engine, steps, m);
    WatchLater(Observed(engine, steps[..m]), Start(engine), Ticks(engine, steps), m);
  }

  /** Real time: if one call had returned when another began, its event comes first. */
  lemma RealTimeOrder(engine: State, steps: seq<(nat, Action)>, m: nat, i: nat, j: nat)
    requires m <= |steps|
    requires var tr := Observed(engine, steps[..m]); i < |tr.calls| <= j && tr.calls[i].finish.Some?
    requires var tr := Observed(engine, steps);
             j < |tr.calls| && tr.calls[i].effect.Some? && tr.calls[j].effect.Some?
    ensures var tr := Observed(engine, steps); tr.calls[i].effect.value < tr.calls[j].effect.value
  {
    var before, after := Observed(engine, steps[..m]), Observed(engine, steps);
    ObservedLater(engine, steps, m);
    ObservedRun(engine, steps[..m]);
    ObservedRun(engine, steps);
    assert Continues(before.calls[i], after.calls[i]);
    assert CallTraced(before, i) && CallTraced(after, j);
  }

  lemma RefusedTick(tr: Traced, tick: Tick, last: Traced, i: nat)
    requires WellTraced(tr) && Moved(tr.s, tick) && InCall(tr, tick.t, i)
    requires Later(Observe(tr, tick), last) && WellTraced(last)
    requires i < |last.calls| && last.calls[i].finish.Some? && last.calls[i].finish.value.result.Refused?
    ensures tick.after.engine == tr.s.engine && tick.after.log == tr.s.log && last.calls[i].effect.None?
  {
    assert ThreadTraced(tr, tick.t) && CallTraced(last, i);
    assert Continues(Observe(tr, tick).calls[i], last.calls[i]);
  }

  /** A reload that is refused in the end changes nothing by any of its steps, and no event
      of the history is its own. */
  lemma RefusedReloadChangesNothing(engine: State, steps: seq<(nat, Action)>, m: nat, i: nat)
    requires m < |steps| && InCall(Observed(engine, steps[..m]), steps[m].0, i)
    requires var tr := Observed(engine, steps);
             i < |tr.calls| && tr.calls[i].finish.Some? && tr.calls[i].finish.value.result.Refused?
    ensures var s, s' := Run(Start(engine), steps[..m]), Run(Start(engine), steps[..m + 1]);
            s'.engine == s.engine && s'.log == s.log
    ensures Observed(engine, steps).calls[i].effect.None?
  {
    var before, tick, last := Observed(engine, steps[..m]), Ticks(engine, steps)[m], Observed(engine, steps);
    ObservedRun(engine, steps[..m]);
    ObservedRun(engine, steps);
    ObservedLater(engine, steps, m + 1);
    TickMoves(engine, steps, m);
    ObservedStep(engine, steps, m);
    RefusedTick(before, tick, last, i);
  }
}

/** The adaptive engine: it always files rules in the index, and switches between
    linear and indexed queries by the shape of the rule set. */
module Adaptive {

  import opened Wrappers
  import opened ByteStrings
  import opened Elements
  import opened Compare
  import opened Engines
  import opened EngineProofs

  datatype Stats = Stats(
    totalRules: nat, listRules: nat, atomRules: nat, uniqueTags: nat, avgTagFanout: real, indexingEnabled: bool)

  datatype AdaptiveState = AdaptiveState(engine: State, stats: Stats)

  const MIN_RULES_FOR_INDEXING := 50
  const MIN_TAG_COUNT_FOR_INDEXING := 5
  const MAX_AVG_FANOUT_FOR_INDEXING := 100.0

  const NO_STATS := Stats(0, 0, 0, 0, 0.0, false)

  /** The entries of all lists of a tag index. */
  ghost function Slots(index: map<Bytes, seq<nat>>): set<(Bytes, int)>
  {
    set tag, k | tag in index && 0 <= k < |index[tag]| :: (tag, k)
  }

  /** Their number: the sum of the lists' lengths. */
  ghost function TotalTagged(index: map<Bytes, seq<nat>>): nat
  {
    |Slots(index)|
  }

  ghost function Row(tag: Bytes, n: nat): set<(Bytes, int)>
  {
    set k | 0 <= k < n :: (tag, k)
  }

  lemma {:induction false} RowSize(tag: Bytes, n: nat)
    ensures |Row(tag, n)| == n
  {
    if n > 0 {
      RowSize(tag, n - 1);
      assert Row(tag, n) == Row(tag, n - 1) + {(tag, n - 1)};
    }
  }

  /** One tag's list apart from the others. */
  lemma TotalTaggedAt(index: map<Bytes, seq<nat>>, tag: Bytes)
    requires tag in index
    ensures TotalTagged(index) == |index[tag]| + TotalTagged(index - {tag})
  {
    assert Slots(index) == Row(tag, |index[tag]|) + Slots(index - {tag});
    RowSize(tag, |index[tag]|);
  }

  /** One more entry under a tag, new or not. */
  lemma TotalTaggedSnoc(index: map<Bytes, seq<nat>>, tag: Bytes, n: nat)
    ensures TotalTagged(index[tag := Positions(index, tag) + [n]]) == TotalTagged(index) + 1
  {
    var longer := index[tag := Positions(index, tag) + [n]];
    TotalTaggedAt(longer, tag);
    assert longer - {tag} == index - {tag};
    if tag in index {
      TotalTaggedAt(index, tag);
    } else {
      assert index - {tag} == index;
    }
  }

  // ------------------------------------------------------------- state changes

  ghost function Fanout(s: AdaptiveState): real
  {
    if |s.engine.tagIndex| == 0 then s.stats.avgTagFanout
    else TotalTagged(s.engine.tagIndex) as real / |s.engine.tagIndex| as real
  }

  ghost function Restrategized(s: AdaptiveState): AdaptiveState
  {
    var tags := |s.engine.tagIndex|;
    var shouldIndex :=
      && s.stats.totalRules >= MIN_RULES_FOR_INDEXING
      && tags >= MIN_TAG_COUNT_FOR_INDEXING
      && Fanout(s) <= MAX_AVG_FANOUT_FOR_INDEXING;
    AdaptiveState(
      s.engine.(indexEnabled := shouldIndex),
      s.stats.(uniqueTags := tags, avgTagFanout := Fanout(s), indexingEnabled := shouldIndex))
  }

  /** The rule filed and counted, before the strategy is looked at again. */
  ghost function Filed(s: AdaptiveState, rule: Element): AdaptiveState
  {
    var counted := s.stats.(totalRules := s.stats.totalRules + 1);
    AdaptiveState(
      IndexLast(Append(s.engine, rule)),
      if rule.List? then counted.(listRules := s.stats.listRules + 1) else counted.(atomRules := s.stats.atomRules + 1))
  }

  ghost function AdaptiveAdd(s: AdaptiveState, rule: Element): AdaptiveState
  {
    Restrategized(Filed(s, rule))
  }

  ghost function AdaptiveAddAll(s: AdaptiveState, rules: seq<Element>): AdaptiveState
    decreases |rules|
  {
    if rules == [] then s else AdaptiveAdd(AdaptiveAddAll(s, rules[..|rules| - 1]), rules[|rules| - 1])
  }

  function Forced(s: AdaptiveState, on: bool): AdaptiveState
  {
    AdaptiveState(s.engine.(indexEnabled := on), s.stats.(indexingEnabled := on))
  }

  function AdaptiveCleared(s: AdaptiveState): AdaptiveState
  {
    AdaptiveState(Cleared(s.engine), NO_STATS)
  }

  // --------------------------------------------------------------------- object

  class AdaptiveEngine {
    const engine: Engine
    var stats: Stats

    ghost function Now(): AdaptiveState
      reads this, engine
    {
      AdaptiveState(engine.Now(), stats)
    }

    constructor ()
      ensures fresh(engine) && Now() == AdaptiveState(New(false), NO_STATS)
    {
      engine := new Engine(false);
      stats := NO_STATS;
    }

    method AddRuleElement(rule: Element)
      modifies this, engine
      ensures Now() == AdaptiveAdd(old(Now()), rule)
    {
      FileRule(rule);
      UpdateIndexingStrategy();
    }

    /** The first half of AddRuleElement: the index is filled whatever the switch says. */
    method FileRule(rule: Element)
      modifies this, engine
      ensures Now() == Filed(old(Now()), rule)
    {
      var idx := |engine.rules|;
      engine.rules := engine.rules + [rule];
      stats := stats.(totalRules := stats.totalRules + 1);
      if rule.List? {
        stats := stats.(listRules := stats.listRules + 1);
        engine.tagIndex := engine.tagIndex[rule.tag := Positions(engine.tagIndex, rule.tag) + [idx]];
      } else {
        stats := stats.(atomRules := stats.atomRules + 1);
        engine.atomRules := engine.atomRules + [idx];
      }
    }

    /** The loop takes the tags in any order. */
    method UpdateIndexingStrategy()
      modifies this, engine
      ensures Now() == Restrategized(old(Now()))
    {
      stats := stats.(uniqueTags := |engine.tagIndex|);
      if stats.uniqueTags > 0 {
        var index := engine.tagIndex;
        var totalTagged, todo := 0, index.Keys;
        assert RestrictedTo(index, todo) == index;
        while todo != {}
          invariant todo <= index.Keys
          invariant totalTagged + TotalTagged(RestrictedTo(index, todo)) == TotalTagged(index)
          decreases todo
          modifies {}
        {
          var tag :| tag in todo;
          TotalTaggedAt(RestrictedTo(index, todo), tag);
          assert RestrictedTo(index, todo) - {tag} == RestrictedTo(index, todo - {tag});
          totalTagged := totalTagged + |index[tag]|;
          todo := todo - {tag};
        }
        assert Slots(RestrictedTo(index, {})) == {};
        stats := stats.(avgTagFanout := totalTagged as real / stats.uniqueTags as real);
      }
      var shouldIndex :=
        && stats.totalRules >= MIN_RULES_FOR_INDEXING
        && stats.uniqueTags >= MIN_TAG_COUNT_FOR_INDEXING
        && stats.avgTagFanout <= MAX_AVG_FANOUT_FOR_INDEXING;
      engine.indexEnabled := shouldIndex;
      stats := stats.(indexingEnabled := shouldIndex);
    }

    method QueryElement(query: Element) returns (r: Outcome<bool>)
      ensures r == Answer(engine.Now(), query)
    {
      r := engine.QueryElement(query);
    }

    method FindMatchingRules(text: Bytes) returns (r: Outcome<seq<Element>>)
      ensures r == FindText(engine.Now(), text)
    {
      r := engine.FindMatchingRules(text);
    }

    method Clear()
      modifies this, engine
      ensures Now() == AdaptiveCleared(old(Now()))
    {
      engine.Clear();
      stats := NO_STATS;
    }

    method ForceIndexing(enabled: bool)
      modifies this, engine
      ensures Now() == Forced(old(Now()), enabled)
    {
      engine.indexEnabled := enabled;
      stats := stats.(indexingEnabled := enabled);
    }

    method ImportRules(rules: seq<Element>)
      modifies this, engine
      ensures Now() == AdaptiveAddAll(AdaptiveCleared(old(Now())), rules)
    {
      Clear();
      ghost var start := Now();
      for i := 0 to |rules|
        invariant Now() == AdaptiveAddAll(start, rules[..i])
      {
        assert rules[..i + 1][..i] == rules[..i];
        AddRuleElement(rules[i]);
      }
      assert rules[..|rules|] == rules;
    }
  }

  function RestrictedTo(index: map<Bytes, seq<nat>>, tags: set<Bytes>): map<Bytes, seq<nat>>
  {
    map tag | tag in index && tag in tags :: index[tag]
  }

  // ------------------------------------------------------ what an index amounts to

  function ListCount(rules: seq<Element>): nat
  {
    if rules == [] then 0
    else ListCount(rules[..|rules| - 1]) + (if rules[|rules| - 1].List? then 1 else 0)
  }

  function TagSet(rules: seq<Element>): set<Bytes>
  {
    set i | 0 <= i < |rules| && rules[i].List? :: rules[i].tag
  }

  lemma IndexedTags(s: State)
    requires Indexed(s)
    ensures s.tagIndex.Keys == TagSet(s.rules)
  {
    forall tag | tag in s.tagIndex ensures tag in TagSet(s.rules) {
      assert UnderTag(s.rules, s.tagIndex[tag], tag);
      var i := s.tagIndex[tag][0];
      assert i in s.tagIndex[tag];
    }
    forall tag | tag in TagSet(s.rules) ensures tag in s.tagIndex {
      var i :| 0 <= i < |s.rules| && s.rules[i].List? && s.rules[i].tag == tag;
      assert i in Home(s, s.rules[i]);
    }
  }

  /** In an increasing list the largest member is the last. */
  lemma LargestIsLast(xs: seq<nat>, n: nat)
    requires Increasing(xs) && n in xs && forall i :: i in xs ==> i <= n
    ensures xs[|xs| - 1] == n && Increasing(xs[..|xs| - 1])
    ensures forall i :: i in xs[..|xs| - 1] <==> i in xs && i != n
  {
    var k :| 0 <= k < |xs| && xs[k] == n;
    assert xs[|xs| - 1] in xs;
    assert xs == xs[..|xs| - 1] + [xs[|xs| - 1]];
    assert forall j :: 0 <= j < |xs| - 1 ==> xs[..|xs| - 1][j] == xs[j] < xs[|xs| - 1];
  }

  /** Taking the last rule back out of its list. */
  function Unfiled(s: State): State
    requires s.rules != []
  {
    var rule := s.rules[|s.rules| - 1];
    var home := Home(s, rule);
    var rest := if home == [] then [] else home[..|home| - 1];
    var t := s.(rules := s.rules[..|s.rules| - 1]);
    if !rule.List? then t.(atomRules := rest)
    else if rest == [] then t.(tagIndex := s.tagIndex - {rule.tag})
    else t.(tagIndex := s.tagIndex[rule.tag := rest])
  }

  lemma LastIsHome(s: State)
    requires Indexed(s) && s.rules != []
    ensures var n, home := |s.rules| - 1, Home(s, s.rules[|s.rules| - 1]);
            && home != [] && home[|home| - 1] == n && Increasing(home[..|home| - 1])
            && forall i :: i in home[..|home| - 1] <==> i in home && i != n
  {
    var n := |s.rules| - 1;
    var rule := s.rules[n];
    assert n in Home(s, rule);
    assert rule.List? ==> rule.tag in s.tagIndex && UnderTag(s.rules, s.tagIndex[rule.tag], rule.tag);
    LargestIsLast(Home(s, rule), n);
  }

  lemma UnfiledTag(s: State, tag: Bytes)
    requires Indexed(s) && s.rules != [] && tag in Unfiled(s).tagIndex
    ensures UnderTag(Unfiled(s).rules, Unfiled(s).tagIndex[tag], tag)
  {
    LastIsHome(s);
    var rule := s.rules[|s.rules| - 1];
    assert UnderTag(s.rules, s.tagIndex[tag], tag);
    assert !(rule.List? && rule.tag == tag) ==> |s.rules| - 1 !in s.tagIndex[tag];
  }

  lemma UnfiledIndexed(s: State)
    requires Indexed(s) && s.rules != []
    ensures var rule := s.rules[|s.rules| - 1]; Home(s, rule) != [] && Indexed(Unfiled(s))
  {
    var n, t := |s.rules| - 1, Unfiled(s);
    LastIsHome(s);
    forall tag | tag in t.tagIndex ensures UnderTag(t.rules, t.tagIndex[tag], tag) {
      UnfiledTag(s, tag);
    }
    assert UnderNoTag(t.rules, t.atomRules) by {
      assert s.rules[n].List? ==> n !in s.atomRules;
    }
    forall i | 0 <= i < |t.rules| ensures i in Home(t, t.rules[i]) {
      assert i in Home(s, s.rules[i]);
    }
  }

  lemma UnfiledTotal(s: State, tag: Bytes)
    requires tag in s.tagIndex && s.tagIndex[tag] != []
    requires s.rules != [] && s.rules[|s.rules| - 1].List? && s.rules[|s.rules| - 1].tag == tag
    ensures TotalTagged(s.tagIndex) == TotalTagged(Unfiled(s).tagIndex) + 1
  {
    var shorter := Unfiled(s).tagIndex;
    TotalTaggedAt(s.tagIndex, tag);
    assert shorter - {tag} == s.tagIndex - {tag};
    if tag in shorter {
      TotalTaggedAt(shorter, tag);
    }
  }

  lemma AtomRulesNeedRules(s: State)
    requires Indexed(s)
    ensures s.rules == [] ==> s.atomRules == []
  {
    if s.atomRules != [] {
      assert s.atomRules[0] in s.atomRules;
    }
  }

  lemma EmptyCounts(s: State)
    requires Indexed(s) && s.rules == []
    ensures TotalTagged(s.tagIndex) == 0 && |s.atomRules| == 0
  {
    IndexedTags(s);
    assert Slots(s.tagIndex) == {};
    AtomRulesNeedRules(s);
  }

  /** One rule less is one entry less, under its tag or among the others. */
  lemma WithoutLast(s: State) returns (t: State)
    requires Indexed(s) && s.rules != []
    ensures Indexed(t) && t.rules == s.rules[..|s.rules| - 1]
    ensures TotalTagged(s.tagIndex) == TotalTagged(t.tagIndex) + (if s.rules[|s.rules| - 1].List? then 1 else 0)
    ensures |s.atomRules| == |t.atomRules| + (if s.rules[|s.rules| - 1].List? then 0 else 1)
  {
    var rule := s.rules[|s.rules| - 1];
    t := Unfiled(s);
    UnfiledIndexed(s);
    if rule.List? {
      UnfiledTotal(s, rule.tag);
    }
  }

  /** A partition of the positions counts them: the lists under tags together hold one
      position per list rule, the other list one per other rule. */
  lemma {:induction false} IndexedCounts(s: State)
    requires Indexed(s)
    ensures TotalTagged(s.tagIndex) == ListCount(s.rules)
    ensures |s.atomRules| == |s.rules| - ListCount(s.rules)
    decreases |s.rules|
  {
    if s.rules == [] {
      EmptyCounts(s);
    } else {
      var t := WithoutLast(s);
      IndexedCounts(t);
    }
  }

  // ------------------------------------------------------------------------ runs

  datatype Op = Adding(rule: Element) | Forcing(on: bool) | Clearing | Importing(rules: seq<Element>)

  ghost function Step(s: AdaptiveState, op: Op): AdaptiveState
  {
    match op
    case Adding(rule) => AdaptiveAdd(s, rule)
    case Forcing(on) => Forced(s, on)
    case Clearing => AdaptiveCleared(s)
    case Importing(rules) => AdaptiveAddAll(AdaptiveCleared(s), rules)
  }

  /** A run of a new engine. */
  ghost function Run(ops: seq<Op>): AdaptiveState
    decreases |ops|
  {
    if ops == [] then AdaptiveState(New(false), NO_STATS) else Step(Run(ops[..|ops| - 1]), ops[|ops| - 1])
  }

  /** Rules dropped by Clear or ImportRules while indexing was off, since indexing was
      last on at such a call: what a caller has to keep at zero. */
  ghost function Leaked(ops: seq<Op>): nat
    decreases |ops|
  {
    if ops == [] then 0
    else
      var before, leaked := Run(ops[..|ops| - 1]).engine, Leaked(ops[..|ops| - 1]);
      var op := ops[|ops| - 1];
      if op.Adding? || op.Forcing? then leaked
      else if before.indexEnabled then 0
      else leaked + |before.rules|
  }

  /** The rules since the last clearing. */
  function Expected(ops: seq<Op>): seq<Element>
    decreases |ops|
  {
    if ops == [] then []
    else
      match ops[|ops| - 1]
      case Adding(rule) => Expected(ops[..|ops| - 1]) + [rule]
      case Forcing(_) => Expected(ops[..|ops| - 1])
      case Clearing => []
      case Importing(rules) => rules
  }

  ghost predicate Consistent(s: AdaptiveState, leaked: nat)
  {
    && TotalTagged(s.engine.tagIndex) + |s.engine.atomRules| == |s.engine.rules| + leaked
    && (leaked == 0 ==> Indexed(s.engine))
    && s.stats.totalRules == |s.engine.rules|
    && s.stats.listRules == ListCount(s.engine.rules)
    && s.stats.atomRules == |s.engine.rules| - ListCount(s.engine.rules)
  }

  lemma IndexedIgnoresFlag(s: State, on: bool)
    requires Indexed(s)
    ensures Indexed(s.(indexEnabled := on))
  {
    var t := s.(indexEnabled := on);
    forall i | 0 <= i < |t.rules| ensures i in Home(t, t.rules[i]) {
      assert i in Home(s, s.rules[i]);
    }
  }

  lemma AddConsistent(s: AdaptiveState, rule: Element, leaked: nat)
    requires Consistent(s, leaked)
    ensures Consistent(AdaptiveAdd(s, rule), leaked)
  {
    var e := IndexLast(Append(s.engine, rule));
    if rule.List? {
      TotalTaggedSnoc(s.engine.tagIndex, rule.tag, |s.engine.rules|);
    }
    if leaked == 0 {
      IndexLastKeeps(s.engine, rule);
      IndexedIgnoresFlag(e, AdaptiveAdd(s, rule).engine.indexEnabled);
    }
    assert (s.engine.rules + [rule])[..|s.engine.rules|] == s.engine.rules;
  }

  lemma {:induction false} AddAllConsistent(s: AdaptiveState, rules: seq<Element>, leaked: nat)
    requires Consistent(s, leaked)
    ensures Consistent(AdaptiveAddAll(s, rules), leaked)
    ensures AdaptiveAddAll(s, rules).engine.rules == s.engine.rules + rules
    decreases |rules|
  {
    if rules == [] {
      assert s.engine.rules + rules == s.engine.rules;
    } else {
      AddAllConsistent(s, rules[..|rules| - 1], leaked);
      AddConsistent(AdaptiveAddAll(s, rules[..|rules| - 1]), rules[|rules| - 1], leaked);
      assert s.engine.rules + rules[..|rules| - 1] + [rules[|rules| - 1]] == s.engine.rules + rules;
    }
  }

  lemma ClearConsistent(s: AdaptiveState, leaked: nat)
    requires Consistent(s, leaked)
    ensures Consistent(AdaptiveCleared(s), if s.engine.indexEnabled then 0 else leaked + |s.engine.rules|)
  {
    if leaked == 0 && s.engine.rules == [] {
      assert ListCount(s.engine.rules) == 0;
    }
  }

  lemma {:induction false} RunConsistent(ops: seq<Op>)
    ensures Consistent(Run(ops), Leaked(ops))
    ensures Run(ops).engine.rules == Expected(ops)
    decreases |ops|
  {
    if ops != [] {
      var before, op := ops[..|ops| - 1], ops[|ops| - 1];
      RunConsistent(before);
      match op
      case Adding(rule) => AddConsistent(Run(before), rule, Leaked(before));
      case Forcing(on) =>
        if Leaked(before) == 0 {
          IndexedIgnoresFlag(Run(before).engine, on);
        }
      case Clearing => ClearConsistent(Run(before), Leaked(before));
      case Importing(rules) =>
        ClearConsistent(Run(before), Leaked(before));
        AddAllConsistent(AdaptiveCleared(Run(before)), rules, Leaked(ops));
        assert [] + rules == rules;
    }
  }

  /** Forcing sets the switch in engine and statistics, and nothing else. Clearing drops
      the rules and all statistics, and leaves the engine's switch. */
  lemma ForcedAndCleared(ops: seq<Op>, on: bool)
    ensures var before, forced, cleared := Run(ops), Run(ops + [Forcing(on)]), Run(ops + [Clearing]);
            && forced.engine == before.engine.(indexEnabled := on)
            && forced.stats == before.stats.(indexingEnabled := on)
            && cleared.engine.rules == [] && cleared.engine.indexEnabled == before.engine.indexEnabled
            && cleared.stats == Stats(0, 0, 0, 0, 0.0, false)
  {
    RunSnoc(ops, Forcing(on));
    RunSnoc(ops, Clearing);
  }

  /** Over every run the index is a partition of the positions exactly when no rule was
      dropped by a clearing with indexing off. */
  lemma IndexExactly(ops: seq<Op>)
    ensures Indexed(Run(ops).engine) <==> Leaked(ops) == 0
  {
    RunConsistent(ops);
    if Indexed(Run(ops).engine) {
      IndexedCounts(Run(ops).engine);
    }
  }

  /** Then the strategy never changes an answer: whatever the switch says, queries and
      matching rules are those of the linear scan over the rules of the run. */
  lemma StrategyIsInvisible(ops: seq<Op>, query: Element)
    requires Leaked(ops) == 0 && KindSuffices(Expected(ops), query)
    ensures Answer(Run(ops).engine, query) == Done(Authorized(Expected(ops), query))
    ensures Find(Run(ops).engine, query) == Done(Matches(Expected(ops), query))
  {
    RunConsistent(ops);
    IndexedIsLinear(Run(ops).engine, query);
  }

  /** The decision after an addition, in terms of the rules alone. */
  lemma StrategyExactly(ops: seq<Op>, rule: Element)
    requires Leaked(ops) == 0
    ensures var rules, s := Expected(ops) + [rule], Run(ops + [Adding(rule)]);
            && s.stats.totalRules == |rules| == s.stats.listRules + s.stats.atomRules
            && s.stats.listRules == ListCount(rules)
            && s.stats.uniqueTags == |TagSet(rules)|
            && (TagSet(rules) != {} ==>
                s.stats.avgTagFanout == ListCount(rules) as real / |TagSet(rules)| as real)
            && s.stats.indexingEnabled == s.engine.indexEnabled
            && (s.engine.indexEnabled <==>
                |rules| >= 50 && |TagSet(rules)| >= 5 && ListCount(rules) <= 100 * |TagSet(rules)|)
  {
    var all := ops + [Adding(rule)];
    assert all[..|all| - 1] == ops;
    RunConsistent(all);
    var e := Run(all).engine;
    IndexedTags(e);
    IndexedCounts(e);
    assert |e.tagIndex.Keys| == |e.tagIndex|;
    var tags, lists := |TagSet(e.rules)|, ListCount(e.rules);
    assert TotalTagged(IndexLast(Append(Run(ops).engine, rule)).tagIndex) == lists;
    if tags > 0 {
      FanoutBound(lists, tags);
    }
  }

  lemma FanoutBound(lists: nat, tags: nat)
    requires tags > 0
    ensures lists as real / tags as real <= MAX_AVG_FANOUT_FOR_INDEXING <==> lists <= 100 * tags
  {
    assert (100 * tags) as real == 100.0 * tags as real;
    QuotientBound(lists as real, tags as real, 100.0);
  }

  lemma QuotientBound(x: real, y: real, c: real)
    requires y > 0.0
    ensures x / y <= c <==> x <= c * y
  {
    assert x == (x / y) * y;
    if x / y <= c {
      assert (x / y) * y <= c * y;
    } else {
      assert (x / y) * y > c * y;
    }
  }

  // ---------------------------------------------- a clearing with indexing off

  /** One rule, Clear, and indexing switched on: the stale position makes the next query
      under that tag panic, where a linear scan would deny it. */
  lemma ClearedIndexPanics(tag: Bytes)
    ensures var rule := List(tag, []);
            var s := Run([Adding(rule), Clearing, Forcing(true)]);
            Answer(s.engine, rule) == Crashed && !Authorized(s.engine.rules, rule)
  {
    var rule := List(tag, []);
    RunSnoc([], Adding(rule));
    RunSnoc([Adding(rule)], Clearing);
    RunSnoc([Adding(rule), Clearing], Forcing(true));
    assert [] + [Adding(rule)] == [Adding(rule)];
    assert [Adding(rule)] + [Clearing] == [Adding(rule), Clearing];
    assert [Adding(rule), Clearing] + [Forcing(true)] == [Adding(rule), Clearing, Forcing(true)];
    assert !Run([Adding(rule)]).engine.indexEnabled;
    assert Run([Adding(rule)]).engine.tagIndex[tag] == [0];
    var s := Run([Adding(rule), Clearing, Forcing(true)]).engine;
    assert s.rules == [] && s.indexEnabled && Candidates(s, rule) == [0];
  }

  lemma RunSnoc(ops: seq<Op>, op: Op)
    ensures Run(ops + [op]) == Step(Run(ops), op)
  {
    assert (ops + [op])[..|ops|] == ops;
  }

  // -------------------------------------------------------- what stale entries do

  /** Every rule's position is in its list, whatever else is. */
  ghost predicate Filled(s: State)
  {
    forall i :: 0 <= i < |s.rules| ==> i in Home(s, s.rules[i])
  }

  lemma AddFilled(s: AdaptiveState, rule: Element)
    requires Filled(s.engine)
    ensures Filled(AdaptiveAdd(s, rule).engine)
  {
    var t := AdaptiveAdd(s, rule).engine;
    assert Home(t, rule) == Home(s.engine, rule) + [|s.engine.rules|];
    forall i | 0 <= i < |t.rules| ensures i in Home(t, t.rules[i]) {
      if i < |s.engine.rules| {
        assert i in Home(s.engine, s.engine.rules[i]);
      }
    }
  }

  lemma {:induction false} AddAllFilled(s: AdaptiveState, rules: seq<Element>)
    requires Filled(s.engine)
    ensures Filled(AdaptiveAddAll(s, rules).engine)
    decreases |rules|
  {
    if rules != [] {
      AddAllFilled(s, rules[..|rules| - 1]);
      AddFilled(AdaptiveAddAll(s, rules[..|rules| - 1]), rules[|rules| - 1]);
    }
  }

  /** So it is over every run, clearings with indexing off included. */
  lemma {:induction false} RunFilled(ops: seq<Op>)
    ensures Filled(Run(ops).engine)
    decreases |ops|
  {
    if ops != [] {
      var before, op := Run(ops[..|ops| - 1]), ops[|ops| - 1];
      RunFilled(ops[..|ops| - 1]);
      match op
      case Adding(rule) => AddFilled(before, rule);
      case Forcing(on) =>
        forall i | 0 <= i < |before.engine.rules| ensures i in Home(Run(ops).engine, before.engine.rules[i]) {
          assert i in Home(before.engine, before.engine.rules[i]);
        }
      case Clearing =>
      case Importing(rules) => AddAllFilled(AdaptiveCleared(before), rules);
    }
  }

  lemma {:induction false} ScanMeans(rules: seq<Element>, query: Element, positions: seq<nat>)
    ensures var r := ScanAt(rules, query, positions);
            && !r.Failed?
            && (r.Done? && r.value ==> Authorized(rules, query))
            && (r.Done? && !r.value ==> forall p :: p in positions ==> p < |rules| && !LessPermissive(query, rules[p]))
  {
    if positions != [] {
      ScanMeans(rules, query, positions[1..]);
      assert positions == [positions[0]] + positions[1..];
    }
  }

  lemma FilledAnswers(s: State, query: Element)
    requires Filled(s) && KindSuffices(s.rules, query)
    ensures var r := Answer(s, query); r.Crashed? || (r.Done? && r.value == Authorized(s.rules, query))
  {
    ScanMeans(s.rules, query, Candidates(s, query));
    if Authorized(s.rules, query) {
      var i :| 0 <= i < |s.rules| && LessPermissive(query, s.rules[i]);
      if query.List? && !s.rules[i].List? {
        ListsBelow(query, s.rules[i]);
      }
      assert query.List? ==> CompareLists(query, s.rules[i]);
      assert i in Home(s, s.rules[i]);
      assert i in Candidates(s, query);
    }
  }

  /** A stale entry never turns an answer round: it is the linear scan's, or a panic. */
  lemma StaleOnlyPanics(ops: seq<Op>, query: Element)
    requires KindSuffices(Expected(ops), query)
    ensures var r := Answer(Run(ops).engine, query); r == Crashed || r == Done(Authorized(Expected(ops), query))
  {
    RunConsistent(ops);
    RunFilled(ops);
    FilledAnswers(Run(ops).engine, query);
  }

  /** The j-th position is behind the last rule, and no rule before it is above the
      query. */
  predicate StaleAt(rules: seq<Element>, query: Element, positions: seq<nat>, j: nat)
  {
    && j < |positions| && positions[j] >= |rules|
    && forall k :: 0 <= k < j ==> positions[k] < |rules| && !LessPermissive(query, rules[positions[k]])
  }

  ghost predicate MeetsStale(rules: seq<Element>, query: Element, positions: seq<nat>)
  {
    exists j: nat :: StaleAt(rules, query, positions, j)
  }

  lemma StaleShift(rules: seq<Element>, query: Element, positions: seq<nat>, j: nat)
    requires positions != []
    ensures StaleAt(rules, query, positions, j + 1) <==>
            positions[0] < |rules| && !LessPermissive(query, rules[positions[0]]) &&
            StaleAt(rules, query, positions[1..], j)
  {
    assert forall k :: 0 <= k < |positions| - 1 ==> positions[1..][k] == positions[k + 1];
  }

  lemma {:induction false} ScanPanicsExactly(rules: seq<Element>, query: Element, positions: seq<nat>)
    ensures ScanAt(rules, query, positions).Crashed? <==> MeetsStale(rules, query, positions)
  {
    if positions != [] {
      var rest := positions[1..];
      ScanPanicsExactly(rules, query, rest);
      assert StaleAt(rules, query, positions, 0) <==> positions[0] >= |rules|;
      if MeetsStale(rules, query, positions) {
        var j: nat :| StaleAt(rules, query, positions, j);
        if j > 0 {
          StaleShift(rules, query, positions, j - 1);
        }
      }
      if MeetsStale(rules, query, rest) {
        var j: nat :| StaleAt(rules, query, rest, j);
        StaleShift(rules, query, positions, j);
      }
    }
  }

  /** Over every run and for every query, list or not, whose kind is all there is to see:
      the answer is the linear scan's exactly when indexing is off or no stale position
      comes before the first rule above the query. */
  lemma StaleQueryExactly(ops: seq<Op>, query: Element)
    requires KindSuffices(Expected(ops), query)
    ensures var s := Run(ops).engine;
            Answer(s, query) == Done(Authorized(Expected(ops), query)) <==>
            !s.indexEnabled || !MeetsStale(s.rules, query, Candidates(s, query))
  {
    var s := Run(ops).engine;
    RunConsistent(ops);
    StaleOnlyPanics(ops, query);
    ScanPanicsExactly(s.rules, query, Candidates(s, query));
  }

  /** No position behind the last rule comes before the rule that is above all lists of
      the tag. */
  predicate Guarded(rules: seq<Element>, positions: seq<nat>, tag: Bytes)
  {
    positions == [] ||
    (positions[0] < |rules| && (rules[positions[0]] == List(tag, []) || Guarded(rules, positions[1..], tag)))
  }

  lemma {:induction false} GuardedScan(rules: seq<Element>, query: Element, positions: seq<nat>)
    requires query.List? && Guarded(rules, positions, query.tag)
    ensures ScanAt(rules, query, positions).Done?
  {
    if positions != [] {
      if rules[positions[0]] == List(query.tag, []) {
        assert CompareLists(query, rules[positions[0]]);
      } else {
        GuardedScan(rules, query, positions[1..]);
      }
    }
  }

  lemma {:induction false} UnguardedScan(rules: seq<Element>, tag: Bytes, positions: seq<nat>)
    requires KindSuffices(rules, List(tag, [])) && !Guarded(rules, positions, tag)
    ensures ScanAt(rules, List(tag, []), positions) == Crashed
  {
    var query := List(tag, []);
    if positions[0] < |rules| {
      var rule := rules[positions[0]];
      assert rule.List? ==> LessPermissive(query, rule) == CompareLists(query, rule);
      if LessPermissive(query, rule) && !rule.List? {
        ListsBelow(query, rule);
      }
      UnguardedScan(rules, tag, positions[1..]);
    }
  }

  /** Over every run, clearings with indexing off included, the queries with one tag are
      answered as by a linear scan exactly when indexing is off or the tag's list is
      guarded. */
  lemma StaleExactly(ops: seq<Op>, tag: Bytes)
    requires forall i :: 0 <= i < |Expected(ops)| ==> !CoversLists(Expected(ops)[i])
    ensures var s := Run(ops).engine;
            (forall query: Element :: query.List? && query.tag == tag ==>
               Answer(s, query) == Done(Authorized(Expected(ops), query))) <==>
            !s.indexEnabled || Guarded(s.rules, Positions(s.tagIndex, tag), tag)
  {
    var s := Run(ops).engine;
    RunConsistent(ops);
    var guarded := !s.indexEnabled || Guarded(s.rules, Positions(s.tagIndex, tag), tag);
    forall query: Element | query.List? && query.tag == tag && guarded
      ensures Answer(s, query) == Done(Authorized(Expected(ops), query))
    {
      StaleOnlyPanics(ops, query);
      if s.indexEnabled {
        GuardedScan(s.rules, query, Positions(s.tagIndex, tag));
      }
    }
    if s.indexEnabled && !Guarded(s.rules, Positions(s.tagIndex, tag), tag) {
      UnguardedScan(s.rules, tag, Positions(s.tagIndex, tag));
      assert Answer(s, List(tag, [])) == Crashed;
    }
  }
}

/** The rule engine: a list of rules, and an index from tags to rule positions that
    queries may use in place of a scan over all rules. */
module Engines {

  import opened Wrappers
  import opened ByteStrings
  import opened Elements
  import opened Compare
  import opened Parsing

  datatype State = State(rules: seq<Element>, tagIndex: map<Bytes, seq<nat>>, atomRules: seq<nat>, indexEnabled: bool)

  function New(enableIndex: bool): State
  {
    State([], map[], [], enableIndex)
  }

  // ------------------------------------------------------------- state changes

  function Positions(tagIndex: map<Bytes, seq<nat>>, tag: Bytes): seq<nat>
  {
    if tag in tagIndex then tagIndex[tag] else []
  }

  /** First half of an addition: the rule is in the list, not yet in the index. */
  function Append(s: State, rule: Element): State
  {
    s.(rules := s.rules + [rule])
  }

  /** Second half: the last rule's position is filed under its tag, or among the rules
      that are no lists. */
  function IndexLast(s: State): State
    requires s.rules != []
  {
    var idx := |s.rules| - 1;
    match s.rules[idx]
    case List(tag, _) => s.(tagIndex := s.tagIndex[tag := Positions(s.tagIndex, tag) + [idx]])
    case _ => s.(atomRules := s.atomRules + [idx])
  }

  function Add(s: State, rule: Element): State
  {
    if s.indexEnabled then IndexLast(Append(s, rule)) else Append(s, rule)
  }

  function AddAll(s: State, rules: seq<Element>): State
    decreases |rules|
  {
    if rules == [] then s else Add(AddAll(s, rules[..|rules| - 1]), rules[|rules| - 1])
  }

  /** Clear leaves the index alone unless indexing is on. */
  function Cleared(s: State): State
  {
    if s.indexEnabled then New(true) else s.(rules := [])
  }

  // ------------------------------------------------------------------- queries

  /** The rules at the given positions that authorize the query, in order; a position
      behind the last rule panics. */
  function MatchesAt(rules: seq<Element>, query: Element, positions: seq<nat>): Outcome<seq<Element>>
  {
    if positions == [] then Done([])
    else if positions[0] >= |rules| then Crashed
    else
      var rule := rules[positions[0]];
      Prepend(if LessPermissive(query, rule) then [rule] else [], MatchesAt(rules, query, positions[1..]))
  }

  /** Whether one of them does: the scan stops at the first that does. */
  function ScanAt(rules: seq<Element>, query: Element, positions: seq<nat>): Outcome<bool>
  {
    if positions == [] then Done(false)
    else if positions[0] >= |rules| then Crashed
    else if LessPermissive(query, rules[positions[0]]) then Done(true)
    else ScanAt(rules, query, positions[1..])
  }

  /** The linear scan from rule k on: what the index is to be compared with. */
  function Matches(rules: seq<Element>, query: Element, k: nat := 0): seq<Element>
    requires k <= |rules|
    decreases |rules| - k
  {
    if k == |rules| then []
    else if LessPermissive(query, rules[k]) then [rules[k]] + Matches(rules, query, k + 1)
    else Matches(rules, query, k + 1)
  }

  predicate Authorized(rules: seq<Element>, query: Element)
  {
    exists i :: 0 <= i < |rules| && LessPermissive(query, rules[i])
  }

  /** The positions indexed mode looks at. */
  function Candidates(s: State, query: Element): seq<nat>
  {
    if query.List? then Positions(s.tagIndex, query.tag) else s.atomRules
  }

  function Answer(s: State, query: Element): Outcome<bool>
  {
    if s.indexEnabled then ScanAt(s.rules, query, Candidates(s, query)) else Done(Authorized(s.rules, query))
  }

  function Find(s: State, query: Element): Outcome<seq<Element>>
  {
    if s.indexEnabled then MatchesAt(s.rules, query, Candidates(s, query)) else Done(Matches(s.rules, query))
  }

  /** The same for a query in canonical text. */
  function FindText(s: State, text: Bytes): Outcome<seq<Element>>
  {
    match ParseText(text)
    case Parsed(query, _) => Find(s, query)
    case Malformed => Failed
    case Panics => Crashed
  }

  function AnswerText(s: State, text: Bytes): Outcome<bool>
  {
    match ParseText(text)
    case Parsed(query, _) => Answer(s, query)
    case Malformed => Failed
    case Panics => Crashed
  }

  // ------------------------------------------------------------- index invariant

  ghost predicate Increasing(xs: seq<nat>)
  {
    forall i, j :: 0 <= i < j < |xs| ==> xs[i] < xs[j]
  }

  /** The list a rule's position belongs into. */
  function Home(s: State, rule: Element): seq<nat>
  {
    if rule.List? then Positions(s.tagIndex, rule.tag) else s.atomRules
  }

  /** The list is not empty and, in order, holds positions of rules with this tag. */
  ghost predicate UnderTag(rules: seq<Element>, positions: seq<nat>, tag: Bytes)
  {
    && positions != []
    && Increasing(positions)
    && forall i :: i in positions ==> i < |rules| && rules[i].List? && rules[i].tag == tag
  }

  ghost predicate UnderNoTag(rules: seq<Element>, positions: seq<nat>)
  {
    && Increasing(positions)
    && forall i :: i in positions ==> i < |rules| && !rules[i].List?
  }

  /** The index is a partition of the positions: every list holds, in order, positions
      of its own rules only, and every rule's position is in its list. */
  ghost predicate Indexed(s: State)
  {
    && (forall tag :: tag in s.tagIndex ==> UnderTag(s.rules, s.tagIndex[tag], tag))
    && UnderNoTag(s.rules, s.atomRules)
    && (forall i :: 0 <= i < |s.rules| ==> i in Home(s, s.rules[i]))
  }

  /** What a query needs of the index: nothing while indexing is off. */
  ghost predicate InOrder(s: State)
  {
    s.indexEnabled ==> Indexed(s)
  }

  // --------------------------------------------------------------------- object

  class Engine {
    var rules: seq<Element>
    var tagIndex: map<Bytes, seq<nat>>
    var atomRules: seq<nat>
    var indexEnabled: bool

    ghost function Now(): State
      reads this
    {
      State(rules, tagIndex, atomRules, indexEnabled)
    }

    constructor (enableIndex: bool)
      ensures Now() == New(enableIndex)
    {
      rules, tagIndex, atomRules, indexEnabled := [], map[], [], enableIndex;
    }

    method AddRuleElement(rule: Element)
      modifies this
      ensures Now() == Add(old(Now()), rule)
    {
      var idx := |rules|;
      rules := rules + [rule];
      if indexEnabled {
        if rule.List? {
          tagIndex := tagIndex[rule.tag := Positions(tagIndex, rule.tag) + [idx]];
        } else {
          atomRules := atomRules + [idx];
        }
      }
    }

    /** A rule in canonical text; the engine is untouched unless it parses. */
    method AddRule(text: Bytes) returns (r: Outcome<()>)
      modifies this
      ensures r == match ParseText(text) case Parsed(_, _) => Done(()) case Malformed => Failed case Panics => Crashed
      ensures Now() == if ParseText(text).Parsed? then Add(old(Now()), ParseText(text).value) else old(Now())
    {
      var parser := new Parser(text);
      var rule := parser.Parse();
      match rule {
        case Malformed => return Failed;
        case Panics => return Crashed;
        case Parsed(e, _) =>
          AddRuleElement(e);
          return Done(());
      }
    }

    method QueryLinear(query: Element) returns (r: bool)
      ensures r <==> Authorized(rules, query)
    {
      for i := 0 to |rules|
        invariant forall j :: 0 <= j < i ==> !LessPermissive(query, rules[j])
      {
        if LessPermissive(query, rules[i]) {
          return true;
        }
      }
      return false;
    }

    method QueryPositions(query: Element, positions: seq<nat>) returns (r: Outcome<bool>)
      ensures r == ScanAt(rules, query, positions)
    {
      for i := 0 to |positions|
        invariant ScanAt(rules, query, positions) == ScanAt(rules, query, positions[i..])
      {
        if positions[i] >= |rules| {
          return Crashed;
        }
        if LessPermissive(query, rules[positions[i]]) {
          return Done(true);
        }
      }
      return Done(false);
    }

    method QueryIndexed(query: Element) returns (r: Outcome<bool>)
      ensures r == ScanAt(rules, query, Candidates(Now(), query))
    {
      if query.List? {
        if query.tag in tagIndex {
          r := QueryPositions(query, tagIndex[query.tag]);
        } else {
          r := Done(false);
        }
      } else {
        r := QueryPositions(query, atomRules);
      }
    }

    method QueryElement(query: Element) returns (r: Outcome<bool>)
      ensures r == Answer(Now(), query)
    {
      if indexEnabled {
        r := QueryIndexed(query);
      } else {
        var found := QueryLinear(query);
        r := Done(found);
      }
    }

    method Query(text: Bytes) returns (r: Outcome<bool>)
      ensures r == AnswerText(Now(), text)
    {
      var parser := new Parser(text);
      var query := parser.Parse();
      match query {
        case Malformed => r := Failed;
        case Panics => r := Crashed;
        case Parsed(e, _) => r := QueryElement(e);
      }
    }

    method FindMatching(query: Element) returns (r: Outcome<seq<Element>>)
      ensures r == Find(Now(), query)
    {
      var matches: seq<Element> := [];
      if indexEnabled {
        var positions := if query.List? then Positions(tagIndex, query.tag) else atomRules;
        PrependTwice([], [], MatchesAt(rules, query, positions));
        for i := 0 to |positions|
          invariant MatchesAt(rules, query, positions) == Prepend(matches, MatchesAt(rules, query, positions[i..]))
        {
          if positions[i] >= |rules| {
            return Crashed;
          }
          assert positions[i..][1..] == positions[i + 1..];
          var hit := LessPermissive(query, rules[positions[i]]);
          PrependTwice(matches, if hit then [rules[positions[i]]] else [], MatchesAt(rules, query, positions[i + 1..]));
          if hit {
            matches := matches + [rules[positions[i]]];
          } else {
            assert matches + [] == matches;
          }
        }
      } else {
        for i := 0 to |rules|
          invariant Matches(rules, query) == matches + Matches(rules, query, i)
        {
          if LessPermissive(query, rules[i]) {
            matches := matches + [rules[i]];
          }
        }
      }
      assert matches + [] == matches;
      return Done(matches);
    }

    method FindMatchingRules(text: Bytes) returns (r: Outcome<seq<Element>>)
      ensures r == FindText(Now(), text)
    {
      var parser := new Parser(text);
      var query := parser.Parse();
      match query {
        case Malformed => r := Failed;
        case Panics => r := Crashed;
        case Parsed(e, _) => r := FindMatching(e);
      }
    }

    method Clear()
      modifies this
      ensures Now() == Cleared(old(Now()))
    {
      rules := [];
      if indexEnabled {
        tagIndex, atomRules := map[], [];
      }
    }

    /** The loop of LoadRulesFromFile and ImportRules. */
    method AddRules(newRules: seq<Element>)
      modifies this
      ensures Now() == AddAll(old(Now()), newRules)
    {
      for i := 0 to |newRules|
        invariant Now() == AddAll(old(Now()), newRules[..i])
      {
        assert newRules[..i + 1][..i] == newRules[..i];
        AddRuleElement(newRules[i]);
      }
      assert newRules[..|newRules|] == newRules;
    }

    method ImportRules(newRules: seq<Element>)
      modifies this
      ensures Now() == AddAll(Cleared(old(Now())), newRules)
    {
      Clear();
      AddRules(newRules);
    }

    method ExportRules() returns (exported: seq<Element>)
      ensures exported == rules
    {
      exported := rules;
    }
  }
}

/** The index is a partition of the rule positions over every run, and indexed
    queries are linear scans over the rules of the query's own kind. */
module EngineProofs {

  import opened Wrappers
  import opened ByteStrings
  import opened Elements
  import opened Compare
  import opened Order
  import opened Parsing
  import opened Engines

  // --------------------------------------------------------- the index over runs

  lemma NewIndexed(enable: bool)
    ensures Indexed(New(enable))
  {
  }

  lemma IncreasingSnoc(xs: seq<nat>, n: nat)
    requires Increasing(xs) && forall i :: i in xs ==> i < n
    ensures Increasing(xs + [n])
    ensures forall i :: i in xs + [n] <==> i in xs || i == n
  {
    forall i, j | 0 <= i < j < |xs + [n]| ensures (xs + [n])[i] < (xs + [n])[j] {
      assert (xs + [n])[i] in xs;
    }
  }

  /** Filing the appended rule restores the index. */
  lemma IndexLastKeeps(s: State, rule: Element)
    requires Indexed(s)
    ensures Indexed(IndexLast(Append(s, rule)))
  {
    var t, n := IndexLast(Append(s, rule)), |s.rules|;
    assert rule.List? && rule.tag in s.tagIndex ==> UnderTag(s.rules, s.tagIndex[rule.tag], rule.tag);
    IncreasingSnoc(Home(s, rule), n);
    assert Home(t, rule) == Home(s, rule) + [n];
    forall tag | tag in t.tagIndex ensures UnderTag(t.rules, t.tagIndex[tag], tag) {
      if rule.List? && tag == rule.tag {
        assert tag in s.tagIndex ==> UnderTag(s.rules, s.tagIndex[tag], tag);
      } else {
        assert UnderTag(s.rules, s.tagIndex[tag], tag);
      }
    }
    forall i | 0 <= i < |t.rules| ensures i in Home(t, t.rules[i]) {
      if i < n {
        assert i in Home(s, s.rules[i]);
      }
    }
  }

  datatype Op = AddOp(rule: Element) | ClearOp | ImportOp(rules: seq<Element>)

  function Step(s: State, op: Op): State
  {
    match op
    case AddOp(rule) => Add(s, rule)
    case ClearOp => Cleared(s)
    case ImportOp(rules) => AddAll(Cleared(s), rules)
  }

  function Run(s: State, ops: seq<Op>): State
    decreases |ops|
  {
    if ops == [] then s else Step(Run(s, ops[..|ops| - 1]), ops[|ops| - 1])
  }

  /** The rules an observer of the run expects: those added since the last clearing. */
  function Expected(rules: seq<Element>, ops: seq<Op>): seq<Element>
    decreases |ops|
  {
    if ops == [] then rules
    else
      match ops[|ops| - 1]
      case AddOp(rule) => Expected(rules, ops[..|ops| - 1]) + [rule]
      case ClearOp => []
      case ImportOp(imported) => imported
  }

  lemma {:induction false} AddAllKeeps(s: State, rules: seq<Element>)
    requires Indexed(s) && s.indexEnabled
    ensures Indexed(AddAll(s, rules)) && AddAll(s, rules).indexEnabled
    decreases |rules|
  {
    if rules != [] {
      AddAllKeeps(s, rules[..|rules| - 1]);
      IndexLastKeeps(AddAll(s, rules[..|rules| - 1]), rules[|rules| - 1]);
    }
  }

  lemma {:induction false} AddAllRules(s: State, rules: seq<Element>)
    ensures AddAll(s, rules).rules == s.rules + rules && AddAll(s, rules).indexEnabled == s.indexEnabled
    decreases |rules|
  {
    if rules == [] {
      assert s.rules + rules == s.rules;
    } else {
      AddAllRules(s, rules[..|rules| - 1]);
      assert s.rules + rules[..|rules| - 1] + [rules[|rules| - 1]] == s.rules + rules;
    }
  }

  /** Over every run with indexing on, the index stays a partition of the positions
      and the rules are exactly those the run leaves. */
  lemma {:induction false} RunKeepsIndex(s: State, ops: seq<Op>)
    requires Indexed(s) && s.indexEnabled
    ensures Indexed(Run(s, ops)) && Run(s, ops).indexEnabled
    ensures Run(s, ops).rules == Expected(s.rules, ops)
    decreases |ops|
  {
    if ops != [] {
      var before, op := Run(s, ops[..|ops| - 1]), ops[|ops| - 1];
      RunKeepsIndex(s, ops[..|ops| - 1]);
      match op
      case AddOp(rule) => IndexLastKeeps(before, rule);
      case ClearOp =>
      case ImportOp(rules) =>
        AddAllKeeps(Cleared(before), rules);
        AddAllRules(Cleared(before), rules);
        assert [] + rules == rules;
    }
  }

  // ------------------------------------------------------------ counting positions

  /** A strictly increasing list holds each of its members once. */
  lemma {:induction false} IncreasingOnce(xs: seq<nat>, i: nat)
    requires Increasing(xs)
    ensures multiset(xs)[i] == if i in xs then 1 else 0
  {
    if xs != [] {
      var front, x := xs[..|xs| - 1], xs[|xs| - 1];
      assert xs == front + [x];
      forall j, k | 0 <= j < k < |front| ensures front[j] < front[k] {
        assert xs[j] < xs[k];
      }
      IncreasingOnce(front, i);
      assert forall j :: 0 <= j < |front| ==> front[j] == xs[j] < x;
    }
  }

  /** In an indexed state each position occurs exactly once, in its rule's own list. */
  lemma ExactlyOnce(s: State, i: nat, tag: Bytes)
    requires Indexed(s) && i < |s.rules|
    ensures multiset(s.atomRules)[i] == if s.rules[i].List? then 0 else 1
    ensures multiset(Positions(s.tagIndex, tag))[i] == if s.rules[i].List? && s.rules[i].tag == tag then 1 else 0
  {
    IncreasingOnce(s.atomRules, i);
    IncreasingOnce(Positions(s.tagIndex, tag), i);
    assert i in Home(s, s.rules[i]);
  }

  // ------------------------------------------------- what the indexed mode computes

  /** The rule is in the part of the rule set that indexed mode searches for the query. */
  predicate SameKind(query: Element, rule: Element)
  {
    query.List? <==> rule.List?
  }

  /** The linear scan from rule k on, over rules of the query's kind. */
  function MatchesOfKind(rules: seq<Element>, query: Element, k: nat := 0): seq<Element>
    requires k <= |rules|
    decreases |rules| - k
  {
    if k == |rules| then []
    else if SameKind(query, rules[k]) && LessPermissive(query, rules[k]) then
      [rules[k]] + MatchesOfKind(rules, query, k + 1)
    else MatchesOfKind(rules, query, k + 1)
  }

  /** `positions` lists, in order and from k on, positions of rules of the query's kind,
      and leaves out none that authorizes the query. */
  ghost predicate Covers(rules: seq<Element>, query: Element, positions: seq<nat>, k: nat)
  {
    && Increasing(positions)
    && (forall i :: i in positions ==> k <= i < |rules| && SameKind(query, rules[i]))
    && (forall i :: k <= i < |rules| && SameKind(query, rules[i]) && LessPermissive(query, rules[i]) ==> i in positions)
  }

  lemma CandidatesCover(s: State, query: Element)
    requires Indexed(s)
    ensures Covers(s.rules, query, Candidates(s, query), 0)
  {
    forall i | 0 <= i < |s.rules| && SameKind(query, s.rules[i]) && LessPermissive(query, s.rules[i])
      ensures i in Candidates(s, query)
    {
      assert i in Home(s, s.rules[i]);
      assert query.List? ==> CompareLists(query, s.rules[i]);
    }
    assert query.List? && query.tag in s.tagIndex ==> UnderTag(s.rules, s.tagIndex[query.tag], query.tag);
  }

  /** Without its first position a covering list covers the rest. */
  lemma CoversTail(rules: seq<Element>, query: Element, positions: seq<nat>, k: nat)
    requires Covers(rules, query, positions, k) && k < |rules|
    ensures k !in positions ==> Covers(rules, query, positions, k + 1)
    ensures k in positions ==> positions[0] == k && Covers(rules, query, positions[1..], k + 1)
  {
    if k in positions {
      var j :| 0 <= j < |positions| && positions[j] == k;
      assert positions[0] in positions;
      assert positions[0] <= positions[j];
      forall i | i in positions[1..] ensures k + 1 <= i < |rules| && SameKind(query, rules[i]) {
        var m :| 0 <= m < |positions[1..]| && positions[1..][m] == i;
        assert positions[m + 1] == i && positions[0] < positions[m + 1];
        assert i in positions;
      }
      forall i | k + 1 <= i < |rules| && SameKind(query, rules[i]) && LessPermissive(query, rules[i])
        ensures i in positions[1..]
      {
        var m :| 0 <= m < |positions| && positions[m] == i;
        assert positions[1..][m - 1] == i;
      }
    }
  }

  /** Scanning a covering list finds what the scan over all rules of the kind finds. */
  lemma {:induction false} ScanCovered(rules: seq<Element>, query: Element, positions: seq<nat>, k: nat)
    requires k <= |rules| && Covers(rules, query, positions, k)
    ensures MatchesAt(rules, query, positions) == Done(MatchesOfKind(rules, query, k))
    ensures ScanAt(rules, query, positions) == Done(MatchesOfKind(rules, query, k) != [])
    decreases |rules| - k
  {
    if positions != [] {
      assert positions[0] in positions;
    }
    if k < |rules| {
      CoversTail(rules, query, positions, k);
      if k in positions {
        ScanCovered(rules, query, positions[1..], k + 1);
        PrependTwice([], [], MatchesAt(rules, query, positions[1..]));
      } else {
        ScanCovered(rules, query, positions, k + 1);
      }
    }
  }

  lemma {:induction false} MatchesOfKindFinds(rules: seq<Element>, query: Element, k: nat)
    requires k <= |rules|
    ensures MatchesOfKind(rules, query, k) != [] <==>
            exists i :: k <= i < |rules| && SameKind(query, rules[i]) && LessPermissive(query, rules[i])
    decreases |rules| - k
  {
    if k < |rules| {
      MatchesOfKindFinds(rules, query, k + 1);
    }
  }

  /** For every rule set and every query, indexed mode is the linear scan over the rules
      of the query's kind: lists for a list, all others for anything else. */
  lemma IndexedExactly(s: State, query: Element)
    requires Indexed(s) && s.indexEnabled
    ensures Find(s, query) == Done(MatchesOfKind(s.rules, query))
    ensures Answer(s, query) ==
            Done(exists i :: 0 <= i < |s.rules| && SameKind(query, s.rules[i]) && LessPermissive(query, s.rules[i]))
  {
    CandidatesCover(s, query);
    ScanCovered(s.rules, query, Candidates(s, query), 0);
    MatchesOfKindFinds(s.rules, query, 0);
  }

  /** What an engine comes to for its callers: the rules, and whether queries see all of
      them or those of their own kind. */
  datatype RuleBook = RuleBook(rules: seq<Element>, indexed: bool)

  function BookOf(s: State): RuleBook
  {
    RuleBook(s.rules, s.indexEnabled)
  }

  predicate Grants(book: RuleBook, query: Element)
  {
    exists i :: 0 <= i < |book.rules| && (book.indexed ==> SameKind(query, book.rules[i])) &&
      LessPermissive(query, book.rules[i])
  }

  /** A rule that a query in the book's mode sees and that is above it. */
  predicate Hit(book: RuleBook, query: Element, i: nat)
  {
    i < |book.rules| && (book.indexed ==> SameKind(query, book.rules[i])) && LessPermissive(query, book.rules[i])
  }

  /** An engine in order answers from its rule book, whatever its rules. */
  lemma AnswersByBook(s: State, query: Element)
    requires InOrder(s)
    ensures Answer(s, query) == Done(Grants(BookOf(s), query))
  {
    if s.indexEnabled {
      IndexedExactly(s, query);
    }
  }

  // ------------------------------------------------------- what a text query finds

  /** The elements are the rules at the positions, one by one. */
  ghost predicate Picks(rules: seq<Element>, positions: seq<nat>, found: seq<Element>)
  {
    && Increasing(positions) && |found| == |positions|
    && forall j :: 0 <= j < |positions| ==> positions[j] < |rules| && found[j] == rules[positions[j]]
  }

  lemma PicksMore(rules: seq<Element>, k: nat, positions: seq<nat>, found: seq<Element>) returns (more: seq<nat>)
    requires k < |rules| && Picks(rules, positions, found) && forall i :: i in positions ==> k < i
    ensures Picks(rules, more, [rules[k]] + found)
    ensures forall i :: i in more <==> i == k || i in positions
  {
    more := [k] + positions;
    assert forall j :: 0 < j < |more| ==> more[j] == positions[j - 1] && positions[j - 1] in positions;
  }

  /** Both scans keep the order and lose nothing. */
  lemma {:induction false} ScanPicks(rules: seq<Element>, query: Element, k: nat, kind: bool)
    returns (positions: seq<nat>)
    requires k <= |rules|
    ensures Picks(rules, positions, if kind then MatchesOfKind(rules, query, k) else Matches(rules, query, k))
    ensures forall i :: i in positions <==>
              k <= i < |rules| && (kind ==> SameKind(query, rules[i])) && LessPermissive(query, rules[i])
    decreases |rules| - k
  {
    if k == |rules| {
      positions := [];
    } else {
      positions := ScanPicks(rules, query, k + 1, kind);
      if (kind ==> SameKind(query, rules[k])) && LessPermissive(query, rules[k]) {
        var found := if kind then MatchesOfKind(rules, query, k + 1) else Matches(rules, query, k + 1);
        positions := PicksMore(rules, k, positions, found);
      }
    }
  }

  /** FindMatchingRules on any text: a malformed text fails, a bad one panics, any other is
      answered with the rules that are hit, all of them, in order. */
  lemma FindTextExactly(s: State, text: Bytes) returns (positions: seq<nat>)
    requires InOrder(s)
    ensures FindText(s, text).Failed? <==> ParseText(text).Malformed?
    ensures FindText(s, text).Crashed? <==> BadText(text)
    ensures ParseText(text).Parsed? ==>
            && FindText(s, text).Done?
            && Picks(s.rules, positions, FindText(s, text).value)
            && forall i :: i in positions <==> Hit(BookOf(s), ParseText(text).value, i)
  {
    TextPanicsExactly(text);
    positions := [];
    if ParseText(text).Parsed? {
      var query := ParseText(text).value;
      positions := ScanPicks(s.rules, query, 0, s.indexEnabled);
      if s.indexEnabled {
        IndexedExactly(s, query);
      }
    }
  }

  /** In particular for printed queries, with any bytes behind them. */
  lemma FindPrinted(s: State, query: Element, rest: Bytes) returns (positions: seq<nat>)
    requires InOrder(s) && StarFree(query) && |Canonical(query) + rest| <= MAX_INT
    ensures FindText(s, Canonical(query) + rest).Done?
    ensures Picks(s.rules, positions, FindText(s, Canonical(query) + rest).value)
    ensures forall i :: i in positions <==> Hit(BookOf(s), query, i)
  {
    PrintedReadsDemoted(query, rest);
    DemoteFixpoint(query);
    positions := FindTextExactly(s, Canonical(query) + rest);
  }

  /** Query on any text: the same three outcomes, and whether any rule is hit. */
  lemma AnswerTextExactly(s: State, text: Bytes)
    requires InOrder(s)
    ensures AnswerText(s, text).Failed? <==> ParseText(text).Malformed?
    ensures AnswerText(s, text).Crashed? <==> BadText(text)
    ensures ParseText(text).Parsed? ==> AnswerText(s, text) == Done(Grants(BookOf(s), ParseText(text).value))
  {
    TextPanicsExactly(text);
    if ParseText(text).Parsed? {
      AnswersByBook(s, ParseText(text).value);
    }
  }

  // ------------------------------------------------ agreement with the linear scan

  /** A rule that is no list but may be above a list: the wildcard, or a set that holds
      a list, the wildcard, or such a set. */
  predicate CoversLists(rule: Element)
  {
    match rule
    case Wildcard => true
    case Set(ms) => exists i :: 0 <= i < |ms| && (ms[i].List? || CoversLists(ms[i]))
    case _ => false
  }

  lemma {:induction false} ListsBelow(query: Element, rule: Element)
    requires query.List? && !rule.List? && LessPermissive(query, rule)
    ensures CoversLists(rule)
  {
    if rule.Set? {
      var i :| 0 <= i < |rule.members| && LessPermissive(query, rule.members[i]);
      if !rule.members[i].List? {
        ListsBelow(query, rule.members[i]);
      }
    }
  }

  /** The queries and rule sets for which the query's own kind is all there is to see. */
  predicate KindSuffices(rules: seq<Element>, query: Element)
  {
    !query.Set? && (query.List? ==> forall i :: 0 <= i < |rules| ==> !CoversLists(rules[i]))
  }

  lemma {:induction false} KindIsAll(rules: seq<Element>, query: Element, k: nat)
    requires k <= |rules| && KindSuffices(rules, query)
    ensures MatchesOfKind(rules, query, k) == Matches(rules, query, k)
    ensures Matches(rules, query, k) != [] <==> exists i :: k <= i < |rules| && LessPermissive(query, rules[i])
    decreases |rules| - k
  {
    if k < |rules| {
      KindIsAll(rules, query, k + 1);
      if LessPermissive(query, rules[k]) && !SameKind(query, rules[k]) {
        if query.List? {
          ListsBelow(query, rules[k]);
        }
      }
    }
  }

  /** The index refines the linear scan: same decision, same matching rules in the same
      order, and no panic. Atoms and star forms other than sets need no condition. */
  lemma IndexedIsLinear(s: State, query: Element)
    requires InOrder(s) && KindSuffices(s.rules, query)
    ensures Answer(s, query) == Done(Authorized(s.rules, query))
    ensures Find(s, query) == Done(Matches(s.rules, query))
  {
    KindIsAll(s.rules, query, 0);
    if s.indexEnabled {
      CandidatesCover(s, query);
      ScanCovered(s.rules, query, Candidates(s, query), 0);
    }
  }

  /** The rules that a rule book's queries miss by their kind could not allow a list. */
  predicate NothingHidden(book: RuleBook)
  {
    book.indexed ==> forall i :: 0 <= i < |book.rules| ==> !CoversLists(book.rules[i])
  }

  lemma GrantsByScan(book: RuleBook, query: Element)
    requires NothingHidden(book) && !query.Set?
    ensures Grants(book, query) <==> Authorized(book.rules, query)
  {
    if i :| 0 <= i < |book.rules| && LessPermissive(query, book.rules[i]) {
      if book.indexed && query.List? && !book.rules[i].List? {
        ListsBelow(query, book.rules[i]);
      }
    }
  }

  /** The same over whole runs. */
  lemma RunAnswersLinearly(s: State, ops: seq<Op>, query: Element)
    requires Indexed(s) && s.indexEnabled && KindSuffices(Expected(s.rules, ops), query)
    ensures Answer(Run(s, ops), query) == Done(Authorized(Expected(s.rules, ops), query))
    ensures Find(Run(s, ops), query) == Done(Matches(Expected(s.rules, ops), query))
  {
    RunKeepsIndex(s, ops);
    IndexedIsLinear(Run(s, ops), query);
  }

  /** A tag no rule of the list carries. */
  function FreshTag(rules: seq<Element>): (tag: Bytes)
    ensures forall i :: 0 <= i < |rules| && rules[i].List? ==> |rules[i].tag| < |tag|
  {
    if rules == [] then []
    else
      var tag := FreshTag(rules[1..]);
      assert forall i :: 0 < i < |rules| ==> rules[i] == rules[1..][i - 1];
      if rules[0].List? && |tag| <= |rules[0].tag| then rules[0].tag + [0] else tag
  }

  /** The rule is m, or a set that reaches m through its members. */
  ghost predicate Reaches(rule: Element, m: Element)
    decreases rule
  {
    match rule
    case Set(ms) => exists i :: 0 <= i < |ms| && Reaches(ms[i], m)
    case _ => rule == m
  }

  lemma {:induction false} ReachedIsBelow(query: Element, rule: Element, m: Element)
    requires query.List? && Reaches(rule, m) && LessPermissive(query, m)
    ensures LessPermissive(query, rule)
    decreases rule
  {
    if rule.Set? {
      var i :| 0 <= i < |rule.members| && Reaches(rule.members[i], m);
      ReachedIsBelow(query, rule.members[i], m);
    }
  }

  /** What a list is below in a rule that is no list. */
  lemma {:induction false} ReachedAbove(query: Element, rule: Element) returns (m: Element)
    requires query.List? && LessPermissive(query, rule)
    ensures Reaches(rule, m) && LessPermissive(query, m) && (m.Wildcard? || m.List?)
    decreases rule
  {
    m := rule;
    if rule.Set? {
      var i :| 0 <= i < |rule.members| && LessPermissive(query, rule.members[i]);
      m := ReachedAbove(query, rule.members[i]);
    }
  }

  ghost predicate BelowListRule(rules: seq<Element>, query: Element)
  {
    exists i :: 0 <= i < |rules| && rules[i].List? && LessPermissive(query, rules[i])
  }

  /** No rule that is no list reaches the wildcard, and the lists such rules reach are
      below list rules anyway. */
  ghost predicate NothingMissed(rules: seq<Element>)
  {
    forall i, m :: 0 <= i < |rules| && !rules[i].List? && Reaches(rules[i], m) ==>
      !m.Wildcard? && (m.List? ==> BelowListRule(rules, m))
  }

  ghost predicate SimpleListMembers(rules: seq<Element>)
  {
    forall i, m :: 0 <= i < |rules| && rules[i].Set? && Reaches(rules[i], m) && m.List? ==> StarFree(m)
  }

  ghost predicate AgreesOn(s: State, query: Element)
  {
    Answer(s, query) == Done(Authorized(s.rules, query))
  }

  /** A list that a rule reaches by the wildcard or by itself, and no list rule covers. */
  lemma MissedQuery(s: State, i: nat, m: Element) returns (query: Element)
    requires Indexed(s) && s.indexEnabled && SimpleListMembers(s.rules)
    requires i < |s.rules| && !s.rules[i].List? && Reaches(s.rules[i], m)
    requires m.Wildcard? || (m.List? && !BelowListRule(s.rules, m))
    ensures query.List? && StarFree(query) && !AgreesOn(s, query)
  {
    query := if m.Wildcard? then List(FreshTag(s.rules), []) else m;
    StarFreeIsSetFree(query);
    MissedByRule(s, i, m, query);
  }

  lemma MissedByRule(s: State, i: nat, m: Element, query: Element)
    requires Indexed(s) && s.indexEnabled
    requires i < |s.rules| && !s.rules[i].List? && Reaches(s.rules[i], m)
    requires m.Wildcard? || (m.List? && !BelowListRule(s.rules, m))
    requires SetFree(query) && query == if m.Wildcard? then List(FreshTag(s.rules), []) else m
    ensures query.List? && !AgreesOn(s, query)
  {
    ReflexiveExactly(query);
    ReachedIsBelow(query, s.rules[i], m);
    IndexedExactly(s, query);
    assert !BelowListRule(s.rules, query);
  }

  /** Transitivity carries a query from the list in the set rule to the list rule. */
  lemma NothingMissedCovers(s: State, query: Element)
    requires Indexed(s) && s.indexEnabled && NothingMissed(s.rules)
    requires SimpleListMembers(s.rules) || InclusiveListRules(s.rules)
    requires query.List? && SetFree(query)
    ensures AgreesOn(s, query)
  {
    IndexedExactly(s, query);
    if i :| 0 <= i < |s.rules| && !s.rules[i].List? && LessPermissive(query, s.rules[i]) {
      var m := ReachedAbove(query, s.rules[i]);
      assert Reaches(s.rules[i], m);
      var j :| 0 <= j < |s.rules| && s.rules[j].List? && LessPermissive(m, s.rules[j]);
      Transitive(query, m, s.rules[j]);
    }
  }

  /** Where the documented agreement breaks: both modes agree on all simple list queries,
      and then on all without sets, exactly when no rule outside the lists reaches the
      wildcard, nor a list that no list rule covers. */
  lemma AgreementExactly(s: State)
    requires Indexed(s) && s.indexEnabled && SimpleListMembers(s.rules)
    ensures (forall query: Element :: query.List? && StarFree(query) ==> AgreesOn(s, query)) <==> NothingMissed(s.rules)
    ensures (forall query: Element :: query.List? && SetFree(query) ==> AgreesOn(s, query)) <==> NothingMissed(s.rules)
  {
    if NothingMissed(s.rules) {
      forall query: Element | query.List? && (StarFree(query) || SetFree(query)) ensures AgreesOn(s, query) {
        if StarFree(query) { StarFreeIsSetFree(query); }
        NothingMissedCovers(s, query);
      }
    } else {
      var i, m :| 0 <= i < |s.rules| && !s.rules[i].List? && Reaches(s.rules[i], m) &&
        !(!m.Wildcard? && (m.List? ==> BelowListRule(s.rules, m)));
      var query := MissedQuery(s, i, m);
      StarFreeIsSetFree(query);
      assert !AgreesOn(s, query);
    }
  }

  /** The lists that set rules reach hold no sets. */
  ghost predicate SetFreeListMembers(rules: seq<Element>)
  {
    forall i, m :: 0 <= i < |rules| && rules[i].Set? && Reaches(rules[i], m) && m.List? ==> SetFree(m)
  }

  predicate InclusiveListRules(rules: seq<Element>)
  {
    forall i :: 0 <= i < |rules| && rules[i].List? ==> InclusiveRanges(rules[i])
  }

  /** With any star forms but sets in the lists that set rules hold: both modes agree on
      all list queries without sets exactly under the same condition. */
  lemma AgreementWithoutSets(s: State)
    requires Indexed(s) && s.indexEnabled && SetFreeListMembers(s.rules) && InclusiveListRules(s.rules)
    ensures (forall query: Element :: query.List? && SetFree(query) ==> AgreesOn(s, query)) <==> NothingMissed(s.rules)
  {
    if NothingMissed(s.rules) {
      forall query: Element | query.List? && SetFree(query) ensures AgreesOn(s, query) {
        NothingMissedCovers(s, query);
      }
    } else {
      var i, m :| 0 <= i < |s.rules| && !s.rules[i].List? && Reaches(s.rules[i], m) &&
        !(!m.Wildcard? && (m.List? ==> BelowListRule(s.rules, m)));
      var query := if m.Wildcard? then List(FreshTag(s.rules), []) else m;
      MissedByRule(s, i, m, query);
      assert !AgreesOn(s, query);
    }
  }

  /** A set rule that holds a list allows that list in linear mode only. */
  lemma SetRuleIsMissed(tag: Bytes)
    ensures var rule, query := Set([List(tag, [])]), List(tag, []);
            Answer(Add(New(false), rule), query) == Done(true) && Answer(Add(New(true), rule), query) == Done(false)
  {
    var rule, query := Set([List(tag, [])]), List(tag, []);
    assert LessPermissive(query, rule.members[0]) by { ReflexiveExactly(query); }
    assert Add(New(false), rule).rules[0] == rule;
    assert Positions(Add(New(true), rule).tagIndex, tag) == [];
  }

  // ------------------------------------------------------------- downward closure

  /** Authorization is inherited by less permissive queries: whatever the rules hold,
      and in either mode, a simple query below an authorized one is authorized. */
  lemma DownwardClosed(s: State, q: Element, q': Element)
    requires InOrder(s) && StarFree(q) && StarFree(q') && LessPermissive(q, q')
    requires Answer(s, q') == Done(true)
    ensures Answer(s, q) == Done(true)
  {
    StarFreeIsSetFree(q);
    if s.indexEnabled {
      IndexedExactly(s, q);
      IndexedExactly(s, q');
      var i :| 0 <= i < |s.rules| && SameKind(q', s.rules[i]) && LessPermissive(q', s.rules[i]);
      Transitive(q, q', s.rules[i]);
      assert SameKind(q, s.rules[i]);
    } else {
      var i :| 0 <= i < |s.rules| && LessPermissive(q', s.rules[i]);
      Transitive(q, q', s.rules[i]);
    }
  }
}

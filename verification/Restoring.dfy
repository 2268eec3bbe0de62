/** Engines rebuilt from rule files: what a saved rule set decides after loading. */
module Restoring {

  import opened Wrappers
  import opened ByteStrings
  import opened Elements
  import opened Compare
  import opened Engines
  import opened EngineProofs
  import BinaryFiles
  import TextFiles

  lemma RebuiltAnswers(rules: seq<Element>, query: Element)
    requires Simple(rules) && !query.Set?
    ensures var s := AddAll(New(true), rules);
            && Answer(s, query) == Done(Authorized(rules, query))
            && Find(s, query) == Done(Matches(rules, query))
  {
    AddAllKeeps(New(true), rules);
    AddAllRules(New(true), rules);
    assert [] + rules == rules;
    forall i | 0 <= i < |rules| ensures !CoversLists(rules[i]) {
      assert StarFree(rules[i]);
    }
    IndexedIsLinear(AddAll(New(true), rules), query);
  }

  /** An indexed engine rebuilt from a binary file decides, and finds, what a linear scan
      over the demoted rules does: for simple rules, over the saved rules themselves. */
  lemma BinaryRestores(rules: seq<Element>, rest: Bytes, query: Element)
    requires BinaryFiles.Saved(rules).Done? && !query.Set?
    ensures var loaded := BinaryFiles.Loaded(BinaryFiles.Saved(rules).value + rest);
            && loaded.Done?
            && var s := AddAll(New(true), loaded.value);
               Answer(s, query) == Done(Authorized(DemoteAll(rules), query)) &&
               Find(s, query) == Done(Matches(DemoteAll(rules), query)) &&
               (Simple(rules) ==> Answer(s, query) == Done(Authorized(rules, query)))
  {
    BinaryFiles.BinaryRoundTripExactly(rules, rest);
    RebuiltAnswers(DemoteAll(rules), query);
    DemoteAllFixpoint(rules);
  }

  /** What is lost with a star form: a wildcard rule allows every query before it is
      saved, and only lists tagged `*` afterwards. */
  lemma WildcardIsLost(query: Element)
    ensures Authorized([Wildcard], query)
    ensures Authorized(DemoteAll([Wildcard]), query) <==> LessPermissive(query, List([STAR], []))
    ensures query.Atom? || (query.List? && query.tag != [STAR]) ==> !Authorized(DemoteAll([Wildcard]), query)
  {
    var before, starList: seq<Element> := [Wildcard], [List([STAR], [])];
    assert LessPermissive(query, before[0]);
    assert Demote(before[0]) == starList[0] && DemoteAll(before) == starList;
    AuthorizedByOne(starList[0], query);
    if query.List? {
      assert LessPermissive(query, starList[0]) == CompareLists(query, starList[0]);
    }
  }

  lemma AuthorizedByOne(rule: Element, query: Element)
    ensures Authorized([rule], query) <==> LessPermissive(query, rule)
  {
    if LessPermissive(query, rule) {
      assert LessPermissive(query, [rule][0]);
    }
  }

  /** The same for text files, for rules that are safe as lines. */
  lemma TextRestores(rules: seq<Element>, query: Element)
    requires Simple(rules) && !query.Set?
    requires forall i :: 0 <= i < |rules| ==> TextFiles.LineSafe(rules[i])
    ensures var loaded := TextFiles.LoadedText(TextFiles.SavedText(rules), TextFiles.DEFAULTS, []);
            loaded.Done? && Answer(AddAll(New(true), loaded.value), query) == Done(Authorized(rules, query))
  {
    TextFiles.TextRoundTripExactly(rules);
    RebuiltAnswers(rules, query);
  }
}

/** Which rules a text file loads as: line by line, for all options, and for files with
    comments, blank lines and advanced forms in them. */
module TextProofs {

  import opened Wrappers
  import opened ByteStrings
  import opened Utf8
  import opened Elements
  import opened Parsing
  import opened AdvancedText
  import opened AdvancedProofs
  import opened TextFiles

  // ----------------------------------------------------------------- line by line

  /** The line is no error: it parses, or may be skipped. */
  predicate Accepted(line: Bytes, opts: LoadOptions)
  {
    RuleOf(line, opts).Done? || (RuleOf(line, opts).Failed? && opts.skipInvalid)
  }

  /** The rules of the lines that parse, in order. */
  function Parses(lines: seq<Bytes>, opts: LoadOptions): seq<Element>
  {
    if lines == [] then []
    else ParseOf(lines[0], opts) + Parses(lines[1..], opts)
  }

  function ParseOf(line: Bytes, opts: LoadOptions): seq<Element>
  {
    match RuleOf(line, opts)
    case Done(rule) => [rule]
    case _ => []
  }

  /** So many rules are enough. */
  predicate Full(opts: LoadOptions, n: nat)
  {
    opts.maxRules > 0 && n >= opts.maxRules
  }

  /** The first m lines are accepted, and without the last of them there are not rules
      enough. */
  predicate ReadsLines(lines: seq<Bytes>, opts: LoadOptions, n: nat, m: nat)
  {
    && m <= |lines|
    && (forall i :: 0 <= i < m ==> Accepted(lines[i], opts))
    && (forall k :: 0 <= k < m ==> !Full(opts, n + |Parses(lines[..k], opts)|))
  }

  lemma ReadsMore(line: Bytes, lines: seq<Bytes>, opts: LoadOptions, n: nat, m: nat)
    requires Accepted(line, opts) && !Full(opts, n)
    requires ReadsLines(lines, opts, n + |Parses([line], opts)|, m)
    ensures ReadsLines([line] + lines, opts, n, m + 1)
    ensures Parses(([line] + lines)[..m + 1], opts) == Parses([line], opts) + Parses(lines[..m], opts)
  {
    var all := [line] + lines;
    forall k | 0 < k <= m + 1 ensures Parses(all[..k], opts) == Parses([line], opts) + Parses(lines[..k - 1], opts) {
      assert all[..k] == [line] + lines[..k - 1];
      assert all[..k][1..] == lines[..k - 1];
    }
    forall i | 0 <= i < m + 1 ensures Accepted(all[i], opts) {
      assert i > 0 ==> all[i] == lines[i - 1];
    }
    forall k | 0 <= k < m + 1 ensures !Full(opts, n + |Parses(all[..k], opts)|) {
      if k == 0 {
        assert all[..k] == [];
      }
    }
  }

  /** What comes of reading m of the lines: success with enough rules, or at the end of a
      file of short lines, and then exactly the rules of these lines behind those already
      there; a panic if the line it stops at panics; else an error. */
  ghost predicate ReadsAs(
    lines: seq<Bytes>, short: bool, opts: LoadOptions, rules: seq<Element>, m: nat, r: Outcome<seq<Element>>)
  {
    && ReadsLines(lines, opts, |rules|, m)
    && var read := Parses(lines[..m], opts);
       var enough := Full(opts, |rules| + |read|);
       && (m < |lines| && !enough ==> !Accepted(lines[m], opts))
       && (r.Done? <==> enough || (m == |lines| && short))
       && (r.Done? ==> r.value == rules + read)
       && (r.Crashed? <==> !enough && m < |lines| && RuleOf(lines[m], opts).Crashed?)
  }

  lemma ReadsAsMore(
    line: Bytes, lines: seq<Bytes>, short: bool, opts: LoadOptions, rules: seq<Element>, m: nat,
    r: Outcome<seq<Element>>)
    requires Accepted(line, opts) && !Full(opts, |rules|)
    requires ReadsAs(lines, short, opts, rules + Parses([line], opts), m, r)
    ensures ReadsAs([line] + lines, short, opts, rules, m + 1, r)
  {
    ReadsMore(line, lines, opts, |rules|, m);
    var first, read := Parses([line], opts), Parses(lines[..m], opts);
    Associate(rules, first, read);
    assert m < |lines| ==> ([line] + lines)[m + 1] == lines[m];
  }

  lemma EnoughReads(lines: seq<Bytes>, short: bool, opts: LoadOptions, rules: seq<Element>)
    requires Full(opts, |rules|)
    ensures ReadsAs(lines, short, opts, rules, 0, Done(rules))
  {
    assert lines[..0] == [] && rules + [] == rules;
  }

  lemma StopsReading(lines: seq<Bytes>, short: bool, opts: LoadOptions, rules: seq<Element>, r: Outcome<seq<Element>>)
    requires !Full(opts, |rules|)
    requires if lines == [] then r == if short then Done(rules) else Failed
             else !Accepted(lines[0], opts) && r == if RuleOf(lines[0], opts).Crashed? then Crashed else Failed
    ensures ReadsAs(lines, short, opts, rules, 0, r)
  {
    assert lines[..0] == [] && rules + [] == rules;
  }

  lemma ParseOne(line: Bytes, opts: LoadOptions, rules: seq<Element>)
    ensures rules + Parses([line], opts) ==
            match RuleOf(line, opts) case Done(rule) => rules + [rule] case _ => rules
  {
    assert Parses([line], opts) == ParseOf(line, opts) + [] == ParseOf(line, opts);
    assert rules + [] == rules;
  }

  /** For every file and all options, a load reads rule lines up to the first that is an
      error, or until there are rules enough. */
  lemma {:induction false} LoadsByLines(s: Bytes, opts: LoadOptions, rules: seq<Element>) returns (m: nat)
    requires !Full(opts, |rules|)
    ensures ReadsAs(RuleLines(s, opts.comments), ShortLines(s), opts, rules, m, LoadedText(s, opts, rules))
    decreases |s|
  {
    m := 0;
    match NextLine(s)
    case NoMore => StopsReading([], true, opts, rules, Done(rules));
    case TooLong => StopsReading([], false, opts, rules, Failed);
    case Line(text, rest) =>
      var line := TrimSpace(text);
      var lines, r := RuleLines(rest, opts.comments), LoadedText(s, opts, rules);
      if line == [] || IsComment(line, opts.comments) {
        m := LoadsByLines(rest, opts, rules);
      } else if Accepted(line, opts) {
        ParseOne(line, opts, rules);
        var more := rules + Parses([line], opts);
        if Full(opts, |more|) {
          EnoughReads(lines, ShortLines(rest), opts, more);
        } else {
          m := LoadsByLines(rest, opts, more);
        }
        ReadsAsMore(line, lines, ShortLines(rest), opts, rules, m, r);
        m := m + 1;
      } else {
        StopsReading([line] + lines, ShortLines(rest), opts, rules, r);
      }
  }

  lemma {:induction false} ParsesAll(lines: seq<Bytes>, opts: LoadOptions)
    requires forall i :: 0 <= i < |lines| ==> RuleOf(lines[i], opts).Done?
    ensures |Parses(lines, opts)| == |lines|
    ensures forall i :: 0 <= i < |lines| ==> Parses(lines, opts)[i] == RuleOf(lines[i], opts).value
  {
    if lines != [] {
      assert forall i :: 0 <= i < |lines| - 1 ==> lines[1..][i] == lines[i + 1];
      ParsesAll(lines[1..], opts);
    }
  }

  /** With the default options: the parses of the file's rule lines, one by one in order,
      behind the rules already there. */
  lemma LoadsTheLines(s: Bytes, rules: seq<Element>)
    requires LoadedText(s, DEFAULTS, rules).Done?
    ensures var lines, loaded := RuleLines(s), LoadedText(s, DEFAULTS, rules).value;
            && |loaded| == |rules| + |lines| && loaded[..|rules|] == rules
            && forall i :: 0 <= i < |lines| ==>
                 ParseText(lines[i]).Parsed? && loaded[|rules| + i] == ParseText(lines[i]).value
  {
    var lines := RuleLines(s);
    var m := LoadsByLines(s, DEFAULTS, rules);
    assert lines[..m] == lines;
    assert forall i :: 0 <= i < |lines| ==> Accepted(lines[i], DEFAULTS);
    ParsesAll(lines, DEFAULTS);
  }

  /** The first so many rules: a limited load that succeeds returns a start of what the
      same load returns without the limit, if that succeeds, and all of it if it is short. */
  lemma LimitTakesFirst(s: Bytes, opts: LoadOptions)
    requires opts.maxRules > 0 && LoadedText(s, opts.(maxRules := 0), []).Done?
    ensures LoadedText(s, opts, []) == Done(FirstOf(LoadedText(s, opts.(maxRules := 0), []).value, opts.maxRules))
  {
    var lines, free := RuleLines(s, opts.comments), opts.(maxRules := 0);
    var n := LoadsByLines(s, free, []);
    var m := LoadsByLines(s, opts, []);
    LimitedLines(lines, ShortLines(s), opts, n, m, LoadedText(s, free, []), LoadedText(s, opts, []));
  }

  function FirstOf(rules: seq<Element>, n: nat): seq<Element>
  {
    if |rules| <= n then rules else rules[..n]
  }

  lemma LimitedLines(
    lines: seq<Bytes>, short: bool, opts: LoadOptions, n: nat, m: nat, r: Outcome<seq<Element>>,
    limited: Outcome<seq<Element>>)
    requires opts.maxRules > 0 && r.Done?
    requires ReadsAs(lines, short, opts.(maxRules := 0), [], n, r) && ReadsAs(lines, short, opts, [], m, limited)
    ensures limited == Done(FirstOf(r.value, opts.maxRules))
  {
    var free := opts.(maxRules := 0);
    assert lines[..n] == lines;
    SameParses(lines, opts, free);
    assert r.value == Parses(lines, opts);
    var read, rest := Parses(lines[..m], opts), Parses(lines[m..], opts);
    assert lines == lines[..m] + lines[m..];
    ParsesConcat(lines[..m], lines[m..], opts);
    assert r.value == read + rest;
    CountAtMost(lines, opts, m);
    if m < |lines| {
      assert Accepted(lines[m], free);
      assert RuleOf(lines[m], opts) == RuleOf(lines[m], free);
      assert |read| == opts.maxRules && (read + rest)[..|read|] == read;
    } else {
      assert lines[m..] == [] && rest == [];
    }
    assert read + [] == read;
    assert limited.Done? && limited.value == [] + read == read;
  }

  lemma {:induction false} SameParses(lines: seq<Bytes>, opts: LoadOptions, free: LoadOptions)
    requires free == opts.(maxRules := 0)
    ensures Parses(lines, opts) == Parses(lines, free)
  {
    if lines != [] {
      SameParses(lines[1..], opts, free);
    }
  }

  lemma Associate(a: seq<Element>, b: seq<Element>, c: seq<Element>)
    ensures a + (b + c) == a + b + c
  {
  }

  lemma {:induction false} ParsesConcat(xs: seq<Bytes>, ys: seq<Bytes>, opts: LoadOptions)
    ensures Parses(xs + ys, opts) == Parses(xs, opts) + Parses(ys, opts)
  {
    if xs == [] {
      assert xs + ys == ys;
    } else {
      ParsesConcat(xs[1..], ys, opts);
      assert (xs + ys)[0] == xs[0] && (xs + ys)[1..] == xs[1..] + ys;
      Associate(ParseOf(xs[0], opts), Parses(xs[1..], opts), Parses(ys, opts));
    }
  }

  lemma CountAtMost(lines: seq<Bytes>, opts: LoadOptions, m: nat)
    requires opts.maxRules > 0 && ReadsLines(lines, opts, 0, m)
    ensures |Parses(lines[..m], opts)| <= opts.maxRules
  {
    if m > 0 {
      assert lines[..m] == lines[..m - 1] + [lines[m - 1]];
      ParsesConcat(lines[..m - 1], [lines[m - 1]], opts);
    }
  }

  // ------------------------------------------------------- comments and blank lines

  /** A line that a load passes over: nothing but white space, or a comment marker first. */
  predicate Ignorable(line: Bytes)
  {
    && NEWLINE !in line && |line| < 65536
    && var text := TrimSpace(DropCR(line));
       text == [] || HasPrefix(text, Ascii("#")) || HasPrefix(text, Ascii("//")) || HasPrefix(text, Ascii(";"))
  }

  lemma CommentMarkers(text: Bytes)
    ensures IsComment(text, DEFAULTS.comments) <==>
            HasPrefix(text, Ascii("#")) || HasPrefix(text, Ascii("//")) || HasPrefix(text, Ascii(";"))
  {
    var markers := DEFAULTS.comments;
    assert markers[0] == Ascii("#") && markers[1] == Ascii("//") && markers[2] == Ascii(";");
  }

  lemma WholeLine(line: Bytes, rest: Bytes)
    requires NEWLINE !in line && |line| < MAX_LINE
    ensures NextLine(line + [NEWLINE] + rest) == Line(DropCR(line), rest)
  {
    var s := line + [NEWLINE] + rest;
    assert forall k :: 0 <= k < |line| ==> s[k] == line[k];
    IndexByteAt(s, NEWLINE, |line|);
    assert s[..|line|] == line && s[|line| + 1..] == rest;
  }

  /** It changes nothing, whatever else the options are. */
  lemma IgnoredLine(line: Bytes, rest: Bytes, opts: LoadOptions, rules: seq<Element>)
    requires Ignorable(line) && opts.comments == DEFAULTS.comments
    ensures LoadedText(line + [NEWLINE] + rest, opts, rules) == LoadedText(rest, opts, rules)
  {
    WholeLine(line, rest);
    CommentMarkers(TrimSpace(DropCR(line)));
  }

  /** For instance, a number sign and anything on its line. */
  lemma CommentIgnorable(text: Bytes)
    requires NEWLINE !in text && |text| < MAX_LINE - 1
    ensures Ignorable(Ascii("#") + text)
  {
    var line := Ascii("#") + text;
    var cut := DropCR(line);
    assert cut == line[..|cut|] && cut[0] == 35;
    TrimKeepsStart(cut);
    assert TrimSpace(cut)[..1] == Ascii("#");
  }

  datatype Item = Ignored(line: Bytes) | Kept(rule: Element)

  /** A file of rules with other lines between them. */
  function FileText(items: seq<Item>): Bytes
  {
    if items == [] then []
    else
      (match items[0] case Ignored(line) => line case Kept(rule) => Canonical(rule)) + [NEWLINE] + FileText(items[1..])
  }

  function KeptRules(items: seq<Item>): seq<Element>
  {
    if items == [] then []
    else (match items[0] case Ignored(_) => [] case Kept(rule) => [rule]) + KeptRules(items[1..])
  }

  predicate Proper(item: Item)
  {
    match item
    case Ignored(line) => Ignorable(line)
    case Kept(rule) => LineSafe(rule)
  }

  /** Comments and blank lines anywhere between safe rules change nothing. */
  lemma {:induction false} InterleavedLoads(items: seq<Item>, rules: seq<Element>)
    requires forall i :: 0 <= i < |items| ==> Proper(items[i])
    ensures LoadedText(FileText(items), DEFAULTS, rules) == Done(rules + DemoteAll(KeptRules(items)))
  {
    if items == [] {
      assert rules + DemoteAll([]) == rules;
    } else {
      var rest := FileText(items[1..]);
      match items[0]
      case Ignored(line) =>
        IgnoredLine(line, rest, DEFAULTS, rules);
        InterleavedLoads(items[1..], rules);
        assert KeptRules(items) == KeptRules(items[1..]);
      case Kept(rule) =>
        SafeRuleLoads(rule, rest, rules);
        InterleavedLoads(items[1..], rules + [Demote(rule)]);
        var kept := KeptRules(items);
        assert kept[0] == rule && kept[1..] == KeptRules(items[1..]);
        DemoteAllCons(rules, kept);
    }
  }

  // -------------------------------------------------------------- the advanced form

  function SavedAdvanced(rules: seq<Element>): Bytes
  {
    if rules == [] then [] else Advanced(rules[0]) + [NEWLINE] + SavedAdvanced(rules[1..])
  }

  method SaveAdvanced(rules: seq<Element>) returns (written: Bytes)
    ensures written == SavedAdvanced(rules)
  {
    written := [];
    for i := 0 to |rules|
      invariant SavedAdvanced(rules) == written + SavedAdvanced(rules[i..])
    {
      var advanced := AdvancedForm(rules[i]);
      assert rules[i..][1..] == rules[i + 1..];
      Regroup(written, advanced + [NEWLINE], SavedAdvanced(rules[i + 1..]));
      Regroup(written, advanced, [NEWLINE]);
      written := written + advanced + [NEWLINE];
    }
    assert written + [] == written;
  }

  /** A word or a list of words and such lists, short enough for a line, that reads back. */
  predicate Legible(e: Element)
  {
    Wordy(e) && Convertible(e) && |Advanced(e)| < MAX_LINE && |Canonical(e)| <= MAX_INT
  }

  /** Only an atom can be taken for a comment. */
  predicate LooksLikeComment(e: Element)
  {
    e.Atom? && (HasPrefix(e.value, Ascii("#")) || HasPrefix(e.value, Ascii("//")) || HasPrefix(e.value, Ascii(";")))
  }

  lemma {:induction false} NoLineBreak(e: Element)
    requires Wordy(e)
    ensures NEWLINE !in Advanced(e)
    decreases e, 0
  {
    if e.List? {
      NoLineBreaks(e.elements);
    }
  }

  lemma {:induction false} NoLineBreaks(es: seq<Element>)
    requires AllWordy(es)
    ensures NEWLINE !in AdvancedTail(es)
    decreases es, 1
  {
    if es != [] {
      NoLineBreak(es[0]);
      NoLineBreaks(es[1..]);
    }
  }

  /** The form has no white space at its ends. */
  lemma FormIsTrim(e: Element)
    requires Wordy(e)
    ensures var c := Advanced(e); c != [] && TrimSpace(DropCR(c)) == c
  {
    var c := Advanced(e);
    assert c != [] && c[0] < 128 && !(9 <= c[0] <= 13) && c[0] != SPACE;
    assert c[|c| - 1] < 128 && !(9 <= c[|c| - 1] <= 13) && c[|c| - 1] != SPACE;
    NoSpaceAtEnd(c, 1);
    TrimKeepsStart(c);
  }

  lemma FormComment(e: Element)
    requires Wordy(e)
    ensures IsComment(Advanced(e), DEFAULTS.comments) <==> LooksLikeComment(e)
  {
    CommentMarkers(Advanced(e));
    if e.List? {
      assert Advanced(e)[0] == LPAREN && Ascii("#")[0] != LPAREN && Ascii("//")[0] != LPAREN && Ascii(";")[0] != LPAREN;
    }
  }

  /** Read with the option for advanced forms, the line is the rule. */
  lemma AdvancedLine(e: Element, opts: LoadOptions)
    requires Legible(e) && opts.advanced
    ensures RuleOf(Advanced(e), opts) == Done(e)
  {
    AdvancedRoundTripExactly(e);
    WordyIsSimple(e);
    RoundTripExactly(e, []);
    assert Canonical(e) + [] == Canonical(e);
  }

  lemma {:induction false} WordyIsSimple(e: Element)
    requires Wordy(e)
    ensures StarFree(e)
  {
    if e.List? {
      forall i | 0 <= i < |e.elements| {
        WordyIsSimple(e.elements[i]);
      }
    }
  }

  function NoComments(rules: seq<Element>): seq<Element>
  {
    if rules == [] then []
    else Unless(LooksLikeComment(rules[0]), rules[0]) + NoComments(rules[1..])
  }

  function Unless(comment: bool, e: Element): seq<Element>
  {
    if comment then [] else [e]
  }

  lemma AdvancedStep(e: Element, rest: Bytes, opts: LoadOptions, before: seq<Element>)
    requires Legible(e)
    requires opts.advanced && opts.maxRules == 0 && opts.comments == DEFAULTS.comments
    ensures LoadedText(Advanced(e) + [NEWLINE] + rest, opts, before) ==
            LoadedText(rest, opts, before + Unless(LooksLikeComment(e), e))
  {
    NoLineBreak(e);
    WholeLine(Advanced(e), rest);
    FormIsTrim(e);
    FormComment(e);
    AdvancedLine(e, opts);
    assert before + [] == before;
  }

  /** Saved in advanced form and loaded as such, legible rules come back in order, but for
      atoms that look like comments. */
  lemma {:induction false} AdvancedFileRestores(rules: seq<Element>, opts: LoadOptions, before: seq<Element>)
    requires forall i :: 0 <= i < |rules| ==> Legible(rules[i])
    requires opts.advanced && opts.maxRules == 0 && opts.comments == DEFAULTS.comments
    ensures LoadedText(SavedAdvanced(rules), opts, before) == Done(before + NoComments(rules))
  {
    if rules == [] {
      assert before + [] == before;
    } else {
      var e, rest := rules[0], rules[1..];
      assert forall i :: 0 <= i < |rest| ==> rest[i] == rules[i + 1];
      AdvancedStep(e, SavedAdvanced(rest), opts, before);
      var read := Unless(LooksLikeComment(e), e);
      AdvancedFileRestores(rest, opts, before + read);
      Associate(before, read, NoComments(rest));
    }
  }
}

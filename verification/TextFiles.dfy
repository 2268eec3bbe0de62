/** The text rule file: one rule per line, blank lines and comments skipped. */
module TextFiles {

  import opened Wrappers
  import opened ByteStrings
  import opened Utf8
  import opened Elements
  import opened Parsing
  import opened AdvancedText

  const NEWLINE: byte := 10
  const CR: byte := 13

  /** bufio.Scanner's buffer: a line that fills it is an error. */
  const MAX_LINE := 65536

  datatype LoadOptions = LoadOptions(advanced: bool, skipInvalid: bool, maxRules: int, comments: seq<Bytes>)

  /** DefaultLoadOptions: canonical form, and lines starting with #, // or ; skipped. */
  const DEFAULTS := LoadOptions(false, false, 0, [[35], [47, 47], [59]])

  predicate IsComment(line: Bytes, prefixes: seq<Bytes>)
  {
    exists i :: 0 <= i < |prefixes| && HasPrefix(line, prefixes[i])
  }

  // --------------------------------------------------------------------- loading

  datatype Scan = Line(text: Bytes, rest: Bytes) | TooLong | NoMore

  function DropCR(s: Bytes): Bytes
  {
    if s != [] && s[|s| - 1] == CR then s[..|s| - 1] else s
  }

  /** The next line, without its line end. */
  function NextLine(s: Bytes): (r: Scan)
    ensures r.Line? ==> |r.rest| < |s|
  {
    if s == [] then NoMore
    else
      match IndexByte(s, NEWLINE)
      case Some(i) => if i >= MAX_LINE then TooLong else Line(DropCR(s[..i]), s[i + 1..])
      case None => if |s| >= MAX_LINE then TooLong else Line(DropCR(s), [])
  }

  function ParsedRule(text: Bytes): Outcome<Element>
  {
    match ParseText(text)
    case Parsed(rule, _) => Done(rule)
    case Malformed => Failed
    case Panics => Crashed
  }

  function RuleOf(line: Bytes, opts: LoadOptions): Outcome<Element>
  {
    if !opts.advanced then ParsedRule(line)
    else
      match FromAdvanced(line)
      case Done(text) => ParsedRule(text)
      case Failed => Failed
      case Crashed => Crashed
  }

  /** The rules of the remaining lines, behind those already loaded. */
  function LoadedText(s: Bytes, opts: LoadOptions, rules: seq<Element>): Outcome<seq<Element>>
    decreases |s|
  {
    match NextLine(s)
    case NoMore => Done(rules)
    case TooLong => Failed
    case Line(text, rest) =>
      var line := TrimSpace(text);
      if line == [] || IsComment(line, opts.comments) then LoadedText(rest, opts, rules)
      else
        match RuleOf(line, opts)
        case Crashed => Crashed
        case Failed => if opts.skipInvalid then LoadedText(rest, opts, rules) else Failed
        case Done(rule) =>
          if opts.maxRules > 0 && |rules| + 1 >= opts.maxRules then Done(rules + [rule])
          else LoadedText(rest, opts, rules + [rule])
  }

  method ParseRule(text: Bytes) returns (r: Outcome<Element>)
    ensures r == ParsedRule(text)
  {
    var parser := new Parser(text);
    var rule := parser.Parse();
    match rule {
      case Parsed(e, _) => r := Done(e);
      case Malformed => r := Failed;
      case Panics => r := Crashed;
    }
  }

  method LoadText(input: Bytes, opts: LoadOptions) returns (r: Outcome<seq<Element>>)
    ensures r == LoadedText(input, opts, [])
  {
    var rules: seq<Element> := [];
    var scan := NextLine(input);
    ghost var unread := input;
    while scan.Line?
      invariant scan == NextLine(unread)
      invariant LoadedText(input, opts, []) == LoadedText(unread, opts, rules)
      decreases |unread|
    {
      var line := TrimSpace(scan.text);
      if line != [] && !IsComment(line, opts.comments) {
        var rule: Outcome<Element>;
        if opts.advanced {
          var canonical := AdvancedToCanonical(line);
          if canonical.Crashed? {
            return Crashed;
          }
          if canonical.Done? {
            rule := ParseRule(canonical.value);
          } else {
            rule := Failed;
          }
        } else {
          rule := ParseRule(line);
        }
        if rule.Crashed? {
          return Crashed;
        }
        if rule.Failed? && !opts.skipInvalid {
          return Failed;
        }
        if rule.Done? {
          rules := rules + [rule.value];
          if opts.maxRules > 0 && |rules| >= opts.maxRules {
            return Done(rules);
          }
        }
      }
      unread := scan.rest;
      scan := NextLine(scan.rest);
    }
    r := if scan.TooLong? then Failed else Done(rules);
  }

  // ---------------------------------------------------------------------- saving

  function SavedText(rules: seq<Element>): Bytes
  {
    if rules == [] then [] else Canonical(rules[0]) + [NEWLINE] + SavedText(rules[1..])
  }

  method SaveCanonical(rules: seq<Element>) returns (written: Bytes)
    ensures written == SavedText(rules)
  {
    written := [];
    for i := 0 to |rules|
      invariant SavedText(rules) == written + SavedText(rules[i..])
    {
      var text := String(rules[i]);
      SavedTextStep(rules, i, written, text);
      written := written + text + [NEWLINE];
    }
  }

  lemma SavedTextStep(rules: seq<Element>, i: nat, written: Bytes, text: Bytes)
    requires i < |rules| && text == Canonical(rules[i])
    ensures written + SavedText(rules[i..]) == written + text + [NEWLINE] + SavedText(rules[i + 1..])
  {
    assert rules[i..][1..] == rules[i + 1..] && rules[i..][0] == rules[i];
    var rest := SavedText(rules[i + 1..]);
    assert SavedText(rules[i..]) == text + [NEWLINE] + rest;
    assert written + (text + [NEWLINE] + rest) == written + text + [NEWLINE] + rest;
  }

  // ------------------------------------------------------------------ round trip

  /** A rule whose text survives as a line: short enough, without a newline, and, for
      an atom, not ending in white space. */
  predicate LineSafe(rule: Element)
  {
    && |Canonical(rule)| < 65536
    && NEWLINE !in Canonical(rule)
    && (rule.Atom? ==> SpaceAtEnd(rule.value) == 0)
  }

  lemma CanonicalEnds(rule: Element)
    ensures var c := Canonical(rule);
            && |c| >= 2
            && (c[0] == LPAREN || IsDigit(c[0]))
            && (!rule.Atom? ==> c[|c| - 1] == RPAREN)
  {
    if rule.Atom? {
      DecimalDigit(|rule.value|, 0);
    }
  }

  /** Only an atom's own bytes can make its text end in white space. */
  lemma CanonicalSpaceAtEnd(rule: Element)
    ensures SpaceAtEnd(Canonical(rule)) == if rule.Atom? then SpaceAtEnd(rule.value) else 0
  {
    CanonicalEnds(rule);
    if rule.Atom? {
      SpaceBehindColon(Canonical(rule), rule.value, 1);
    } else {
      NoSpaceAtEnd(Canonical(rule), 1);
    }
  }

  lemma {:induction false} SpaceBehindColon(c: Bytes, v: Bytes, k: nat)
    requires k >= 1 && |v| < |c| && c[|c| - |v|..] == v && c[|c| - |v| - 1] == COLON
    ensures SpaceAtEnd(c, k) == SpaceAtEnd(v, k)
    decreases 4 - k
  {
    if k <= 3 && k <= |c| {
      assert forall j :: 0 <= j < |v| ==> c[|c| - |v| + j] == v[j];
      SpaceBehindColon(c, v, k + 1);
    }
  }

  /** A line cut from a text that starts like a rule is trimmed to a start of it. */
  lemma TrimmedLine(c: Bytes, i: nat) returns (m: nat)
    requires 1 <= i <= |c| && (c[0] == LPAREN || IsDigit(c[0]))
    ensures 1 <= m <= i && TrimSpace(DropCR(c[..i])) == c[..m]
    ensures m == i <==> SpaceAtEnd(c[..i]) == 0
  {
    var s := c[..i];
    var t := DropCR(s);
    assert t == c[..|t|];
    TrimKeepsStart(t);
    m := |TrimRight(t)|;
    assert TrimSpace(t) == t[..m] == c[..m];
    if s[i - 1] == CR {
      assert s[i - 1..] == [CR];
    }
  }

  lemma NoComment(line: Bytes)
    requires line != [] && (line[0] == LPAREN || IsDigit(line[0]))
    ensures !IsComment(line, DEFAULTS.comments)
  {
    var prefixes := DEFAULTS.comments;
    forall i | 0 <= i < |prefixes| ensures !HasPrefix(line, prefixes[i]) {
      assert prefixes[i][0] != line[0];
    }
  }

  /** The line a saved rule is read as, by where its text has its first newline. */
  lemma FirstLine(rule: Element, rest: Bytes) returns (i: nat)
    ensures 1 <= i <= |Canonical(rule)|
    ensures var s := Canonical(rule) + [NEWLINE] + rest;
            NextLine(s) == if i >= MAX_LINE then TooLong else Line(DropCR(Canonical(rule)[..i]), s[i + 1..])
    ensures i == |Canonical(rule)| <==> NEWLINE !in Canonical(rule)
  {
    var c := Canonical(rule);
    var s := c + [NEWLINE] + rest;
    CanonicalEnds(rule);
    if NEWLINE in c {
      var k :| 0 <= k < |c| && c[k] == NEWLINE;
      i := FirstOccurrence(c, k);
      assert s == c + ([NEWLINE] + rest);
      IndexByteExtends(c, [NEWLINE] + rest, NEWLINE);
    } else {
      i := |c|;
      assert forall k :: 0 <= k < |c| ==> s[k] == c[k];
      IndexByteAt(s, NEWLINE, i);
    }
    assert s[..i] == c[..i];
  }

  lemma {:induction false} FirstOccurrence(s: Bytes, k: nat) returns (i: nat)
    requires k < |s| && s[k] == NEWLINE
    ensures i <= k && IndexByte(s, NEWLINE) == Some(i) && s[i] == NEWLINE
  {
    if s[0] == NEWLINE {
      i := 0;
    } else {
      i := FirstOccurrence(s[1..], k - 1);
      i := i + 1;
    }
  }

  lemma SafeRuleLoads(rule: Element, rest: Bytes, rules: seq<Element>)
    requires LineSafe(rule)
    ensures LoadedText(Canonical(rule) + [NEWLINE] + rest, DEFAULTS, rules)
         == LoadedText(rest, DEFAULTS, rules + [Demote(rule)])
  {
    var c := Canonical(rule);
    var s := c + [NEWLINE] + rest;
    var i := FirstLine(rule, rest);
    CanonicalEnds(rule);
    CanonicalSpaceAtEnd(rule);
    assert c[..i] == c && s[i + 1..] == rest;
    var m := TrimmedLine(c, i);
    NoComment(c);
    PrintedReadsDemoted(rule, []);
    assert c + [] == c;
  }

  lemma UnsafeRuleFails(rule: Element, rest: Bytes, rules: seq<Element>)
    requires !LineSafe(rule) && |Canonical(rule)| <= MAX_INT
    ensures !LoadedText(Canonical(rule) + [NEWLINE] + rest, DEFAULTS, rules).Done?
  {
    var c := Canonical(rule);
    var i := FirstLine(rule, rest);
    if i < MAX_LINE {
      CanonicalEnds(rule);
      CanonicalSpaceAtEnd(rule);
      var m := TrimmedLine(c, i);
      assert i == |c| ==> c[..i] == c;
      assert m < |c|;
      NoComment(c[..m]);
      CutTextFails(rule, m);
    }
  }

  lemma {:induction false} LoadsSavedText(rules: seq<Element>, before: seq<Element>)
    requires forall i :: 0 <= i < |rules| ==> |Canonical(rules[i])| <= MAX_INT
    ensures var r := LoadedText(SavedText(rules), DEFAULTS, before);
            && (r.Done? <==> forall i :: 0 <= i < |rules| ==> LineSafe(rules[i]))
            && (r.Done? ==> r.value == before + DemoteAll(rules))
  {
    if rules == [] {
      assert before + DemoteAll(rules) == before;
    } else {
      var rest := SavedText(rules[1..]);
      if LineSafe(rules[0]) {
        SafeRuleLoads(rules[0], rest, before);
        LoadsSavedText(rules[1..], before + [Demote(rules[0])]);
        DemoteAllCons(before, rules);
        assert forall i :: 1 <= i < |rules| ==> rules[i] == rules[1..][i - 1];
      } else {
        UnsafeRuleFails(rules[0], rest, before);
      }
    }
  }

  /** Saving in canonical text and loading again restores a rule set exactly when every
      rule is simple and safe as a line; with an unsafe rule nothing loads at all. */
  lemma TextRoundTripExactly(rules: seq<Element>)
    requires forall i :: 0 <= i < |rules| ==> |Canonical(rules[i])| <= MAX_INT
    ensures LoadedText(SavedText(rules), DEFAULTS, []) == Done(rules) <==>
            Simple(rules) && forall i :: 0 <= i < |rules| ==> LineSafe(rules[i])
    ensures LoadedText(SavedText(rules), DEFAULTS, []).Done? <==>
            forall i :: 0 <= i < |rules| ==> LineSafe(rules[i])
  {
    LoadsSavedText(rules, []);
    assert [] + DemoteAll(rules) == DemoteAll(rules);
    DemoteAllFixpoint(rules);
  }

  /** Loaded rules hold no star form, whatever the file and the options. */
  lemma {:induction false} LoadedIsSimple(s: Bytes, opts: LoadOptions, rules: seq<Element>)
    requires LoadedText(s, opts, rules).Done?
    requires Simple(rules)
    ensures Simple(LoadedText(s, opts, rules).value)
    decreases |s|
  {
    var scan := NextLine(s);
    if scan.Line? {
      var line := TrimSpace(scan.text);
      if line == [] || IsComment(line, opts.comments) {
        LoadedIsSimple(scan.rest, opts, rules);
      } else {
        var rule := RuleOf(line, opts);
        if rule.Done? {
          RuleIsSimple(line, opts);
          if !(opts.maxRules > 0 && |rules| + 1 >= opts.maxRules) {
            LoadedIsSimple(scan.rest, opts, rules + [rule.value]);
          }
        } else {
          LoadedIsSimple(scan.rest, opts, rules);
        }
      }
    }
  }

  lemma RuleIsSimple(line: Bytes, opts: LoadOptions)
    requires RuleOf(line, opts).Done?
    ensures StarFree(RuleOf(line, opts).value)
  {
    ElementAtSimple(if opts.advanced then FromAdvanced(line).value else line, 0);
  }

  // ------------------------------------------------------------ what loads at all

  /** The lines that are rules, up to the end or the first line that is too long. */
  function RuleLines(s: Bytes, comments: seq<Bytes> := DEFAULTS.comments): seq<Bytes>
    decreases |s|
  {
    match NextLine(s)
    case Line(text, rest) =>
      var line := TrimSpace(text);
      if line == [] || IsComment(line, comments) then RuleLines(rest, comments)
      else [line] + RuleLines(rest, comments)
    case _ => []
  }

  /** No line fills the scanner's buffer. */
  predicate ShortLines(s: Bytes)
    decreases |s|
  {
    match NextLine(s)
    case Line(_, rest) => ShortLines(rest)
    case TooLong => false
    case NoMore => true
  }

  predicate AllParse(lines: seq<Bytes>)
  {
    forall i :: 0 <= i < |lines| ==> ParseText(lines[i]).Parsed?
  }

  predicate BadLineAt(lines: seq<Bytes>, i: nat)
  {
    i < |lines| && BadText(lines[i]) && AllParse(lines[..i])
  }

  /** The first line that does not parse panics the parser. */
  ghost predicate BadLine(lines: seq<Bytes>)
  {
    exists i: nat :: BadLineAt(lines, i)
  }

  lemma AllParseCons(line: Bytes, lines: seq<Bytes>)
    ensures AllParse([line] + lines) <==> ParseText(line).Parsed? && AllParse(lines)
  {
    var all := [line] + lines;
    assert all[0] == line && forall i :: 0 <= i < |lines| ==> lines[i] == all[i + 1];
  }

  lemma BadLineShift(line: Bytes, lines: seq<Bytes>, i: nat)
    ensures BadLineAt([line] + lines, i + 1) <==> ParseText(line).Parsed? && BadLineAt(lines, i)
  {
    if i < |lines| {
      assert ([line] + lines)[..i + 1] == [line] + lines[..i];
      AllParseCons(line, lines[..i]);
    }
  }

  lemma BadLineCons(line: Bytes, lines: seq<Bytes>)
    ensures BadLine([line] + lines) <==> BadText(line) || (ParseText(line).Parsed? && BadLine(lines))
  {
    var all := [line] + lines;
    assert BadLineAt(all, 0) <==> BadText(line);
    if BadLine(all) {
      var i: nat :| BadLineAt(all, i);
      if i > 0 {
        BadLineShift(line, lines, i - 1);
      }
    }
    if BadLine(lines) {
      var i: nat :| BadLineAt(lines, i);
      BadLineShift(line, lines, i);
    }
  }

  /** A rule file loads exactly when its rule lines all parse and no line is too long; it
      panics exactly when the first rule line that does not parse panics the parser. */
  lemma {:induction false} LoadsExactly(s: Bytes, rules: seq<Element>)
    ensures var r := LoadedText(s, DEFAULTS, rules);
            (r.Done? <==> AllParse(RuleLines(s)) && ShortLines(s)) && (r.Crashed? <==> BadLine(RuleLines(s)))
    decreases |s|
  {
    match NextLine(s)
    case NoMore =>
    case TooLong =>
    case Line(text, rest) =>
      var line := TrimSpace(text);
      if line == [] || IsComment(line, DEFAULTS.comments) {
        LoadsExactly(rest, rules);
      } else {
        AllParseCons(line, RuleLines(rest));
        BadLineCons(line, RuleLines(rest));
        TextPanicsExactly(line);
        if ParseText(line).Parsed? {
          LoadsExactly(rest, rules + [ParseText(line).value]);
        }
      }
  }
}

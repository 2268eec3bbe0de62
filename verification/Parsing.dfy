/** The parser of canonical S-expressions: what it reads from a position of the
    input, and the object that reads it. */
module Parsing {

  import opened Wrappers
  import opened ByteStrings
  import opened Elements

  /** A parse succeeds at a new position, reports an error, or slices out of bounds. */
  datatype Parse<+T> = Parsed(value: T, next: nat) | Malformed | Panics

  /** <length>:<data>. The end of the data is computed in a machine int, so a huge
      length wraps around; a negative length or a wrapped end makes the slice panic. */
  function AtomAt(input: Bytes, pos: nat): (r: Parse<Bytes>)
    requires pos <= |input|
    ensures r.Parsed? ==> pos + 2 <= r.next <= |input|
  {
    match IndexByte(input[pos..], COLON)
    case None => Malformed
    case Some(offset) =>
      var colon := pos + offset;
      match Atoi(input[pos..colon])
      case None => Malformed
      case Some(length) =>
        var start := colon + 1;
        var end := WrapInt(start + length);
        if end > |input| then Malformed
        else if end < start then Panics
        else
          Parsed(input[start..end], end)
  }

  function ElementAt(input: Bytes, pos: nat): (r: Parse<Element>)
    requires pos <= |input|
    ensures r.Parsed? ==> pos + 2 <= r.next <= |input|
    decreases |input| - pos, 1
  {
    if pos == |input| then Malformed
    else if input[pos] == LPAREN then ListAt(input, pos)
    else
      match AtomAt(input, pos)
      case Parsed(v, next) => Parsed(Atom(v), next)
      case Malformed => Malformed
      case Panics => Panics
  }

  function ListAt(input: Bytes, pos: nat): (r: Parse<Element>)
    requires pos < |input|
    ensures r.Parsed? ==> pos + 4 <= r.next <= |input|
    decreases |input| - pos, 0
  {
    match AtomAt(input, pos + 1)
    case Malformed => Malformed
    case Panics => Panics
    case Parsed(tag, next) =>
      match ItemsAt(input, next)
      case Malformed => Malformed
      case Panics => Panics
      case Parsed(es, end) => Parsed(List(tag, es), end)
  }

  /** The elements up to the closing parenthesis. */
  function ItemsAt(input: Bytes, pos: nat): (r: Parse<seq<Element>>)
    requires pos <= |input|
    ensures r.Parsed? ==> pos + 1 <= r.next <= |input|
    decreases |input| - pos, 2
  {
    if pos == |input| then Malformed
    else if input[pos] == RPAREN then Parsed([], pos + 1)
    else
      match ElementAt(input, pos)
      case Malformed => Malformed
      case Panics => Panics
      case Parsed(e, next) => Behind([e], ItemsAt(input, next))
  }

  /** A parse of a list's remainder, behind the elements already read. */
  function Behind(read: seq<Element>, r: Parse<seq<Element>>): Parse<seq<Element>>
  {
    match r
    case Parsed(es, next) => Parsed(read + es, next)
    case _ => r
  }

  /** Every element the parser returns is simple. */
  lemma {:induction false} ElementAtSimple(input: Bytes, pos: nat)
    requires pos <= |input| && ElementAt(input, pos).Parsed?
    ensures StarFree(ElementAt(input, pos).value)
    decreases |input| - pos, 1
  {
    if input[pos] == LPAREN {
      assert ElementAt(input, pos) == ListAt(input, pos);
      ItemsAtSimple(input, AtomAt(input, pos + 1).next);
    }
  }

  lemma {:induction false} ItemsAtSimple(input: Bytes, pos: nat)
    requires pos <= |input| && ItemsAt(input, pos).Parsed?
    ensures var es := ItemsAt(input, pos).value; forall i :: 0 <= i < |es| ==> StarFree(es[i])
    decreases |input| - pos, 2
  {
    if input[pos] != RPAREN {
      ElementAtSimple(input, pos);
      ItemsAtSimple(input, ElementAt(input, pos).next);
    }
  }

  /** The whole input, read from its start; what follows the element is ignored. */
  function ParseText(input: Bytes): Parse<Element>
  {
    ElementAt(input, 0)
  }

  class Parser {
    const input: Bytes
    var pos: nat

    constructor (input: Bytes)
      ensures this.input == input && pos == 0
    {
      this.input := input;
      pos := 0;
    }

    method Parse() returns (r: Parse<Element>)
      requires pos <= |input|
      modifies this
      ensures r == ElementAt(input, old(pos))
      ensures pos <= |input|
      ensures r.Parsed? ==> pos == r.next
      decreases |input| - pos, 1
    {
      if pos >= |input| {
        return Malformed;
      }
      if input[pos] == LPAREN {
        r := ParseList();
      } else {
        var a := ParseAtom();
        match a {
          case Parsed(v, next) => r := Parsed(Atom(v), next);
          case Malformed => r := Malformed;
          case Panics => r := Panics;
        }
      }
    }

    method ParseAtom() returns (r: Parse<Bytes>)
      requires pos <= |input|
      modifies this
      ensures r == AtomAt(input, old(pos))
      ensures pos == if r.Parsed? then r.next else old(pos)
      decreases |input| - pos, 0
    {
      var offset := IndexByte(input[pos..], COLON);
      if offset.None? {
        return Malformed;
      }
      var colon := pos + offset.value;
      var length := Atoi(input[pos..colon]);
      if length.None? {
        return Malformed;
      }
      var start := colon + 1;
      var end := WrapInt(start + length.value);
      if end > |input| {
        return Malformed;
      }
      if end < start {
        return Panics;
      }
      r := Parsed(input[start..end], end);
      pos := end;
    }

    method ParseList() returns (r: Parse<Element>)
      requires pos < |input|
      modifies this
      ensures r == ListAt(input, old(pos))
      ensures pos <= |input|
      ensures r.Parsed? ==> pos == r.next
      decreases |input| - pos, 0
    {
      pos := pos + 1;
      var tag := ParseAtom();
      if tag.Malformed? {
        return Malformed;
      }
      if tag.Panics? {
        return Panics;
      }
      var elements: seq<Element> := [];
      BehindNothing(ItemsAt(input, pos));
      while pos < |input| && input[pos] != RPAREN
        invariant old(pos) + 3 <= pos <= |input|
        invariant ItemsAt(input, tag.next) == Behind(elements, ItemsAt(input, pos))
        decreases |input| - pos
      {
        var elem := Parse();
        if elem.Malformed? {
          return Malformed;
        }
        if elem.Panics? {
          return Panics;
        }
        BehindBehind(elements, elem.value, ItemsAt(input, pos));
        elements := elements + [elem.value];
      }
      if pos >= |input| {
        return Malformed;
      }
      assert elements + [] == elements;
      pos := pos + 1;
      r := Parsed(List(tag.value, elements), pos);
    }
  }

  lemma BehindNothing(r: Parse<seq<Element>>)
    ensures Behind([], r) == r
  {
    if r.Parsed? {
      assert [] + r.value == r.value;
    }
  }

  lemma BehindBehind(read: seq<Element>, e: Element, r: Parse<seq<Element>>)
    ensures Behind(read, Behind([e], r)) == Behind(read + [e], r)
  {
    if r.Parsed? {
      assert read + ([e] + r.value) == read + [e] + r.value;
    }
  }

  // ------------------------------------------------------ parsing what is printed

  ghost predicate Yields<T>(r: Parse<T>, value: T, next: nat)
  {
    r.Parsed? && r.value == value && r.next == next
  }

  /** The input reads `text` from `pos` on. */
  predicate Reads(input: Bytes, pos: nat, text: Bytes)
  {
    pos + |text| <= |input| && input[pos..pos + |text|] == text
  }

  lemma ReadsSplit(input: Bytes, pos: nat, a: Bytes, b: Bytes)
    requires Reads(input, pos, a + b)
    ensures Reads(input, pos, a) && Reads(input, pos + |a|, b)
  {
    assert input[pos..pos + |a|] == (a + b)[..|a|];
    assert input[pos + |a|..pos + |a| + |b|] == (a + b)[|a|..];
  }

  lemma ReadsFirst(input: Bytes, pos: nat, text: Bytes)
    requires text != [] && Reads(input, pos, text)
    ensures input[pos] == text[0]
  {
    assert input[pos] == input[pos..pos + |text|][0];
  }

  lemma ListPieces(input: Bytes, pos: nat, tag: Bytes, body: Bytes)
    requires Reads(input, pos, [LPAREN] + tag + body + [RPAREN])
    ensures input[pos] == LPAREN && Reads(input, pos + 1, tag) && Reads(input, pos + 1 + |tag|, body)
    ensures input[pos + 1 + |tag| + |body|] == RPAREN
  {
    ReadsSplit(input, pos, [LPAREN] + tag + body, [RPAREN]);
    ReadsSplit(input, pos, [LPAREN] + tag, body);
    ReadsSplit(input, pos, [LPAREN], tag);
    var end := pos + 1 + |tag| + |body|;
    assert input[pos..pos + 1][0] == LPAREN && input[end..end + 1][0] == RPAREN;
  }

  lemma ColonBehindNumeral(input: Bytes, pos: nat, v: Bytes)
    requires |input| <= MAX_INT
    requires Reads(input, pos, LV(v))
    ensures var d := Decimal(|v|);
            && IndexByte(input[pos..], COLON) == Some(|d|)
            && Atoi(input[pos..pos + |d|]) == Some(|v|)
            && Reads(input, pos + |d| + 1, v)
  {
    var d := Decimal(|v|);
    var rest := input[pos + |LV(v)|..];
    assert input[pos..] == LV(v) + rest;
    LVColon(v, rest);
    ReadsSplit(input, pos, d + [COLON], v);
    ReadsSplit(input, pos, d, [COLON]);
    AtoiOfDecimal(|v|);
  }

  lemma AtomAtLV(input: Bytes, pos: nat, v: Bytes)
    requires |input| <= MAX_INT
    requires Reads(input, pos, LV(v))
    ensures Yields(AtomAt(input, pos), v, pos + |LV(v)|)
  {
    var d := Decimal(|v|);
    ColonBehindNumeral(input, pos, v);
    AtomAtParts(input, pos, |d|, v);
    assert |LV(v)| == |d| + 1 + |v|;
  }

  lemma AtomAtParts(input: Bytes, pos: nat, offset: nat, v: Bytes)
    requires pos + offset + 1 <= |input| <= MAX_INT && Reads(input, pos + offset + 1, v)
    requires IndexByte(input[pos..], COLON) == Some(offset)
    requires Atoi(input[pos..pos + offset]) == Some(|v|)
    ensures Yields(AtomAt(input, pos), v, pos + offset + 1 + |v|)
  {
  }

  /** The parser inverts the printer: from any position where the canonical text of a
      simple element stands, it reads that element and stops exactly behind it. */
  lemma {:induction false} ParsesPrinted(input: Bytes, pos: nat, e: Element)
    requires |input| <= MAX_INT
    requires StarFree(e) && Reads(input, pos, Text(e))
    ensures Yields(ElementAt(input, pos), e, pos + |Text(e)|)
    decreases e, 0
  {
    match e
    case Atom(v) =>
      AtomAtLV(input, pos, v);
      DecimalDigit(|v|, 0);
      ReadsFirst(input, pos, LV(v));
      assert IsDigit(input[pos]);
    case List(tag, es) =>
      var tagText, body := LV(tag), TextAll(es);
      ListPieces(input, pos, tagText, body);
      AtomAtLV(input, pos + 1, tag);
      var start := pos + 1 + |tagText|;
      ParsesPrintedAll(input, start, es, body);
      ListAtParts(input, pos, tag, start, es, start + |body| + 1);
      assert |Text(e)| == 1 + |tagText| + |body| + 1;
  }

  lemma ListAtParts(input: Bytes, pos: nat, tag: Bytes, start: nat, es: seq<Element>, end: nat)
    requires pos < |input| && input[pos] == LPAREN && start <= |input|
    requires Yields(AtomAt(input, pos + 1), tag, start)
    requires Yields(ItemsAt(input, start), es, end)
    ensures Yields(ElementAt(input, pos), List(tag, es), end)
  {
    assert ElementAt(input, pos) == ListAt(input, pos);
  }

  lemma {:induction false} ParsesPrintedAll(input: Bytes, pos: nat, es: seq<Element>, text: Bytes)
    requires |input| <= MAX_INT
    requires forall i :: 0 <= i < |es| ==> StarFree(es[i])
    requires text == TextAll(es) && Reads(input, pos, text)
    requires pos + |text| < |input| && input[pos + |text|] == RPAREN
    ensures Yields(ItemsAt(input, pos), es, pos + |text| + 1)
    decreases es, 1
  {
    if es != [] {
      var head, tail := Text(es[0]), TextAll(es[1..]);
      assert text == head + tail;
      ReadsSplit(input, pos, head, tail);
      TextStart(es[0]);
      ReadsFirst(input, pos, head);
      ParsesPrinted(input, pos, es[0]);
      var next, end := pos + |head|, pos + |text| + 1;
      assert next + |tail| + 1 == end;
      ParsesPrintedAll(input, next, es[1..], tail);
      ItemsStep(input, pos, es[0], next, es[1..], end);
      assert [es[0]] + es[1..] == es;
    }
  }

  lemma ItemsStep(input: Bytes, pos: nat, e: Element, next: nat, es: seq<Element>, end: nat)
    requires pos < |input| && input[pos] != RPAREN && next <= |input|
    requires Yields(ElementAt(input, pos), e, next)
    requires Yields(ItemsAt(input, next), es, end)
    ensures Yields(ItemsAt(input, pos), [e] + es, end)
  {
  }

  lemma TextStart(e: Element)
    requires StarFree(e)
    ensures |Text(e)| >= 2
    ensures Text(e)[0] == LPAREN || IsDigit(Text(e)[0])
  {
    if e.Atom? {
      DecimalDigit(|e.value|, 0);
    }
  }

  /** Any element, star forms included, behind any text. */
  lemma PrintedReadsDemoted(e: Element, rest: Bytes)
    requires |Canonical(e) + rest| <= MAX_INT
    ensures Yields(ParseText(Canonical(e) + rest), Demote(e), |Canonical(e)|)
  {
    CanonicalIsText(e);
    assert (Canonical(e) + rest)[0..|Canonical(e)|] == Canonical(e);
    ParsesPrinted(Canonical(e) + rest, 0, Demote(e));
  }

  /** Printing then parsing is the identity exactly on elements without star forms. */
  lemma RoundTripExactly(e: Element, rest: Bytes)
    requires |Canonical(e) + rest| <= MAX_INT
    ensures Yields(ParseText(Canonical(e) + rest), e, |Canonical(e)|) <==> StarFree(e)
  {
    PrintedReadsDemoted(e, rest);
    DemoteFixpoint(e);
  }

  /** The canonical text is a prefix code: if one text begins another, both are the
      whole text of elements that demote alike. */
  lemma CanonicalPrefixFree(d: Element, e: Element, rest: Bytes)
    requires |Canonical(e)| <= MAX_INT
    requires Canonical(d) + rest == Canonical(e)
    ensures Demote(d) == Demote(e) && rest == []
  {
    PrintedReadsDemoted(d, rest);
    PrintedReadsDemoted(e, []);
    assert Canonical(e) + [] == Canonical(e);
  }

  // ---------------------------------------------- what an accepted text looks like

  lemma Join(s: Bytes, a: nat, b: nat, c: nat)
    requires a <= b <= c <= |s|
    ensures s[a..c] == s[a..b] + s[b..c]
  {
  }

  /** `text` is a shortest way to write what stands in s[a..c]. */
  predicate Shortest(text: Bytes, s: Bytes, a: nat, c: nat)
    requires a <= c <= |s|
  {
    |text| <= c - a && (|text| == c - a ==> s[a..c] == text)
  }

  lemma ShortestJoin(x: Bytes, y: Bytes, s: Bytes, a: nat, b: nat, c: nat)
    requires a <= b <= c <= |s|
    requires Shortest(x, s, a, b) && Shortest(y, s, b, c)
    ensures Shortest(x + y, s, a, c)
  {
    Join(s, a, b, c);
  }

  lemma ShortestByte(s: Bytes, a: nat)
    requires a < |s|
    ensures Shortest([s[a]], s, a, a + 1)
  {
  }

  lemma AtomAtLongest(input: Bytes, pos: nat)
    requires pos <= |input| <= MAX_INT && AtomAt(input, pos).Parsed?
    ensures var r := AtomAt(input, pos); Shortest(LV(r.value), input, pos, r.next)
  {
    var r := AtomAt(input, pos);
    var colon := pos + IndexByte(input[pos..], COLON).value;
    IndexByteFound(input[pos..], COLON);
    assert input[colon] == input[pos..][colon - pos];
    AtoiIsLongest(input[pos..colon]);
    var d := Decimal(|r.value|);
    ShortestByte(input, colon);
    ShortestJoin(d, [COLON], input, pos, colon, colon + 1);
    ShortestJoin(d + [COLON], r.value, input, pos, colon + 1, r.next);
  }

  /** On every input: what the parser consumed for an element is at least as long as
      the element's canonical text, and of that length only when it is that text. */
  lemma {:induction false} CanonicalIsShortest(input: Bytes, pos: nat)
    requires pos <= |input| <= MAX_INT && ElementAt(input, pos).Parsed?
    ensures var r := ElementAt(input, pos); Shortest(Text(r.value), input, pos, r.next)
    decreases |input| - pos, 1
  {
    if input[pos] != LPAREN {
      AtomAtLongest(input, pos);
    } else {
      assert ElementAt(input, pos) == ListAt(input, pos);
      var tag := AtomAt(input, pos + 1);
      var items := ItemsAt(input, tag.next);
      AtomAtLongest(input, pos + 1);
      ItemsShortest(input, tag.next, items);
      ShortestByte(input, pos);
      ShortestByte(input, items.next - 1);
      ListShortest(input, pos, tag, items, TextAll(items.value));
    }
  }

  lemma ListShortest(input: Bytes, pos: nat, tag: Parse<Bytes>, items: Parse<seq<Element>>, body: Bytes)
    requires tag.Parsed? && items.Parsed? && pos + 1 <= tag.next < items.next <= |input|
    requires Shortest([LPAREN], input, pos, pos + 1) && Shortest(LV(tag.value), input, pos + 1, tag.next)
    requires Shortest(body, input, tag.next, items.next - 1) && Shortest([RPAREN], input, items.next - 1, items.next)
    ensures Shortest([LPAREN] + LV(tag.value) + body + [RPAREN], input, pos, items.next)
  {
    ShortestJoin([LPAREN], LV(tag.value), input, pos, pos + 1, tag.next);
    ShortestJoin([LPAREN] + LV(tag.value), body, input, pos, tag.next, items.next - 1);
    ShortestJoin([LPAREN] + LV(tag.value) + body, [RPAREN], input, pos, items.next - 1, items.next);
  }

  lemma {:induction false} ItemsShortest(input: Bytes, pos: nat, r: Parse<seq<Element>>)
    requires pos <= |input| <= MAX_INT && r == ItemsAt(input, pos) && r.Parsed?
    ensures pos < r.next && input[r.next - 1] == RPAREN
    ensures Shortest(TextAll(r.value), input, pos, r.next - 1)
    decreases |input| - pos, 2
  {
    if input[pos] == RPAREN {
      assert input[pos..pos] == [];
    } else {
      var first := ElementAt(input, pos);
      var rest := ItemsAt(input, first.next);
      CanonicalIsShortest(input, pos);
      ItemsShortest(input, first.next, rest);
      ShortestJoin(Text(first.value), TextAll(rest.value), input, pos, first.next, r.next - 1);
      assert r.value[1..] == rest.value;
    }
  }

  // ------------------------------------------------------- parsing ignores the rest

  lemma AtomExtends(s: Bytes, more: Bytes, pos: nat)
    requires pos <= |s| && |s + more| <= MAX_INT && AtomAt(s, pos).Parsed?
    ensures AtomAt(s + more, pos) == AtomAt(s, pos)
  {
    var t := s + more;
    assert t[pos..] == s[pos..] + more;
    IndexByteExtends(s[pos..], more, COLON);
    var colon := pos + IndexByte(s[pos..], COLON).value;
    assert t[pos..colon] == s[pos..colon];
    var end := AtomAt(s, pos).next;
    assert t[colon + 1..end] == s[colon + 1..end];
  }

  /** What has been parsed stays parsed when more bytes follow. */
  lemma {:induction false} ElementExtends(s: Bytes, more: Bytes, pos: nat)
    requires pos <= |s| && |s + more| <= MAX_INT && ElementAt(s, pos).Parsed?
    ensures ElementAt(s + more, pos) == ElementAt(s, pos)
    decreases |s| - pos, 1
  {
    if s[pos] != LPAREN {
      AtomExtends(s, more, pos);
    } else {
      assert ElementAt(s, pos) == ListAt(s, pos) && ElementAt(s + more, pos) == ListAt(s + more, pos);
      AtomExtends(s, more, pos + 1);
      ItemsExtend(s, more, AtomAt(s, pos + 1).next);
    }
  }

  lemma {:induction false} ItemsExtend(s: Bytes, more: Bytes, pos: nat)
    requires pos <= |s| && |s + more| <= MAX_INT && ItemsAt(s, pos).Parsed?
    ensures ItemsAt(s + more, pos) == ItemsAt(s, pos)
    decreases |s| - pos, 2
  {
    if s[pos] != RPAREN {
      ElementExtends(s, more, pos);
      ItemsExtend(s, more, ElementAt(s, pos).next);
    }
  }

  /** A canonical text cut short does not parse. */
  lemma CutTextFails(e: Element, n: nat)
    requires |Canonical(e)| <= MAX_INT && n < |Canonical(e)|
    ensures !ParseText(Canonical(e)[..n]).Parsed?
  {
    var s := Canonical(e);
    assert s[..n] + s[n..] == s && s + [] == s;
    PrintedReadsDemoted(e, []);
    if ParseText(s[..n]).Parsed? {
      ElementExtends(s[..n], s[n..], 0);
    }
  }

  /** Progress and normal form: every accepted input yields a simple element from at
      least two bytes, and printing that element and parsing again yields it again. */
  lemma AcceptedIsStable(input: Bytes)
    requires |input| <= MAX_INT
    requires ParseText(input).Parsed?
    ensures var r := ParseText(input);
            && 2 <= r.next <= |input|
            && Yields(ParseText(Canonical(r.value)), r.value, |Canonical(r.value)|)
  {
    var e := ParseText(input).value;
    ElementAtSimple(input, 0);
    DemoteFixpoint(e);
    CanonicalIsText(e);
    CanonicalIsShortest(input, 0);
    PrintedReadsDemoted(e, []);
    assert Canonical(e) + [] == Canonical(e);
  }

  // ----------------------------------------------------------- where it panics

  /** The numeral up to the next colon is negative, or the end of the data it announces is
      beyond the machine's int. */
  predicate BadLength(input: Bytes, pos: nat)
    requires pos <= |input|
  {
    var colon := IndexByte(input[pos..], COLON);
    && colon.Some?
    && var length := Atoi(input[pos..pos + colon.value]);
       length.Some? && (length.value < 0 || pos + colon.value + 1 + length.value > MAX_INT)
  }

  lemma AtomPanicsExactly(input: Bytes, pos: nat)
    requires pos <= |input|
    ensures AtomAt(input, pos).Panics? <==> BadLength(input, pos)
  {
    var colon := IndexByte(input[pos..], COLON);
    if colon.Some? && Atoi(input[pos..pos + colon.value]).Some? {
      AtoiInRange(input[pos..pos + colon.value]);
    }
  }

  lemma AtoiInRange(s: Bytes)
    requires Atoi(s).Some?
    ensures -MAX_INT - 1 <= Atoi(s).value <= MAX_INT
  {
  }

  /** A flat walk over the tokens of the input, with the number of open lists and whether
      a tag comes next: where it meets the first atom that cannot be read, if the length
      of that atom is bad. */
  function BadAtom(input: Bytes, pos: nat, open: nat, tag: bool): (r: Option<nat>)
    requires pos <= |input|
    ensures r.Some? ==> pos <= r.value <= |input| && BadLength(input, r.value)
    decreases |input| - pos
  {
    if pos < |input| && !tag && input[pos] == LPAREN then BadAtom(input, pos + 1, open + 1, true)
    else if pos < |input| && !tag && open > 0 && input[pos] == RPAREN then
      if open == 1 then None else BadAtom(input, pos + 1, open - 1, false)
    else
      match AtomAt(input, pos)
      case Parsed(_, next) => if open == 0 then None else BadAtom(input, next, open, false)
      case _ => if BadLength(input, pos) then Some(pos) else None
  }

  /** The first atom of the input that cannot be read has a bad length. */
  predicate BadText(input: Bytes)
  {
    BadAtom(input, 0, 0, false).Some?
  }

  /** What a part of the parse makes of the walk: it decides it, or the walk goes on
      behind the part. */
  ghost predicate WalksAlong<T>(r: Parse<T>, walk: Option<nat>, behind: Option<nat>)
  {
    match r
    case Panics => walk.Some?
    case Malformed => walk == None
    case Parsed(_, _) => walk == behind
  }

  lemma {:induction false} ElementWalk(input: Bytes, pos: nat, open: nat)
    requires pos <= |input| && (open > 0 ==> pos < |input| && input[pos] != RPAREN)
    ensures var r := ElementAt(input, pos);
            WalksAlong(r, BadAtom(input, pos, open, false),
                       if r.Parsed? && open > 0 then BadAtom(input, r.next, open, false) else None)
    decreases |input| - pos, 1
  {
    if pos == |input| {
      assert input[pos..] == [];
    } else if input[pos] == LPAREN {
      AtomPanicsExactly(input, pos + 1);
      var tag := AtomAt(input, pos + 1);
      assert ElementAt(input, pos) == ListAt(input, pos);
      if tag.Parsed? {
        ItemsWalk(input, tag.next, open + 1);
      }
    } else {
      AtomPanicsExactly(input, pos);
    }
  }

  lemma {:induction false} ItemsWalk(input: Bytes, pos: nat, open: nat)
    requires pos <= |input| && open > 0
    ensures var r := ItemsAt(input, pos);
            WalksAlong(r, BadAtom(input, pos, open, false),
                       if r.Parsed? && open > 1 then BadAtom(input, r.next, open - 1, false) else None)
    decreases |input| - pos, 2
  {
    if pos == |input| {
      assert input[pos..] == [];
    } else if input[pos] != RPAREN {
      ElementWalk(input, pos, open);
      if ElementAt(input, pos).Parsed? {
        ItemsWalk(input, ElementAt(input, pos).next, open);
      }
    }
  }

  /** The parser panics exactly on the inputs whose first unreadable atom has a bad
      length. */
  lemma TextPanicsExactly(input: Bytes)
    ensures ParseText(input).Panics? <==> BadText(input)
  {
    ElementWalk(input, 0, 0);
  }

  /** A minus sign, a numeral and a colon: "-1:" and its like panic before any data. */
  lemma NegativeLengthPanics(n: nat, rest: Bytes)
    requires 1 <= n <= MAX_INT
    ensures ParseText([MINUS] + Decimal(n) + [COLON] + rest) == Panics
  {
    var d := Decimal(n);
    var numeral := [MINUS] + d;
    var s := numeral + [COLON] + rest;
    forall k | 0 <= k < |numeral| ensures s[k] != COLON {
      assert s[k] == numeral[k];
      if k > 0 {
        DecimalDigit(n, k - 1);
      }
    }
    IndexByteAt(s, COLON, |numeral|);
    assert s[0..] == s && s[0..|numeral|] == numeral && numeral[1..] == d;
    DigitsOfDecimal(n);
    var value: int := 0 - n;
    assert Atoi(numeral) == Some(value);
  }
}

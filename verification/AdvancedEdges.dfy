/** The edges of the advanced form's reader: where it panics, and what becomes of forms
    that AdvancedForm does not write. */
module AdvancedEdges {

  import opened Wrappers
  import opened ByteStrings
  import opened Utf8
  import opened Elements
  import opened AdvancedText
  import opened AdvancedProofs

  // ----------------------------------------------------------- where it panics

  predicate IsGap(r: Bytes)
  {
    r == [SPACE] || r == [9] || r == [10] || r == [13]
  }

  /** An opening parenthesis outside quotes with nothing behind it that belongs to it:
      another one, white space at the outer level, or the end. `open` says that the last
      rune was one, `quoted` and `depth` where the text stands. */
  predicate LoneParen(steps: seq<Step>, open: bool, quoted: bool, depth: int)
  {
    steps != [] &&
    var r, rest := steps[0].rune, steps[1..];
    if r == [LPAREN] && !quoted then open || steps[0].atLastByte || LoneParen(rest, true, false, depth + 1)
    else if r == [RPAREN] && !quoted then LoneParen(rest, false, false, depth - 1)
    else if r == [QUOTE] then LoneParen(rest, false, !quoted, depth)
    else if IsGap(r) && !quoted && depth == 0 then open || LoneParen(rest, false, false, depth)
    else LoneParen(rest, false, quoted, depth)
  }

  /** Runes are not empty, and only the last may be at the last byte. */
  predicate Proper(steps: seq<Step>)
  {
    forall i :: 0 <= i < |steps| ==> steps[i].rune != [] && (steps[i].atLastByte ==> i == |steps| - 1)
  }

  lemma {:induction false} RunesProper(s: Bytes)
    ensures Proper(Runes(s))
  {
    if s != [] {
      var n := RuneLength(s);
      var rest := s[if n == 0 then 1 else n..];
      RunesProper(rest);
      assert Runes(s)[1..] == Runes(rest);
      assert forall i :: 0 < i < |Runes(s)| ==> Runes(s)[i] == Runes(rest)[i - 1];
    }
  }

  /** Inside quotes there is a token under way, and it is no lone parenthesis. */
  predicate Sane(st: Scanner)
  {
    st.inQuote ==> st.current != [] && st.current != [LPAREN]
  }

  lemma ScanSane(st: Scanner, r: Bytes)
    requires Sane(st) && r != []
    ensures Sane(Scan(st, r))
    ensures [LPAREN] in Scan(st, r).tokens <==>
            [LPAREN] in st.tokens ||
            (st.current == [LPAREN] && !st.inQuote && (r == [LPAREN] || (IsGap(r) && st.depth == 0)))
    ensures Scan(st, r).current == [LPAREN] <==> r == [LPAREN] && !st.inQuote
  {
    if r == [QUOTE] && !st.inQuote {
      assert (st.current + r)[|st.current|] == QUOTE;
    }
  }

  lemma {:induction false} LoneParenIsToken(steps: seq<Step>, st: Scanner)
    requires Sane(st) && Proper(steps)
    ensures [LPAREN] in TokensOf(steps, st) <==>
            [LPAREN] in st.tokens || LoneParen(steps, st.current == [LPAREN], st.inQuote, st.depth)
  {
    if steps != [] {
      var r, next, rest := steps[0].rune, Scan(st, steps[0].rune), steps[1..];
      ScanSane(st, r);
      if steps[0].atLastByte {
        assert rest == [];
        assert TokensOf(steps, st) == Flush(next).tokens;
      } else {
        assert forall i :: 0 <= i < |rest| ==> rest[i] == steps[i + 1];
        LoneParenIsToken(rest, next);
      }
    }
  }

  /** No opening parenthesis outside quotes. */
  predicate Quiet(s: Bytes, quoted: bool)
  {
    s == [] ||
    if s[0] == QUOTE then Quiet(s[1..], !quoted) else (s[0] == LPAREN ==> quoted) && Quiet(s[1..], quoted)
  }

  /** Whether a text that starts outside quotes, or inside, ends inside. */
  predicate EndsQuoted(s: Bytes, quoted: bool)
  {
    if s == [] then quoted else EndsQuoted(s[1..], if s[0] == QUOTE then !quoted else quoted)
  }

  lemma {:induction false} QuietConcat(a: Bytes, b: Bytes, quoted: bool)
    ensures Quiet(a + b, quoted) <==> Quiet(a, quoted) && Quiet(b, EndsQuoted(a, quoted))
    ensures EndsQuoted(a + b, quoted) == EndsQuoted(b, EndsQuoted(a, quoted))
  {
    if a == [] {
      assert a + b == b;
    } else {
      assert (a + b)[1..] == a[1..] + b;
      QuietConcat(a[1..], b, if a[0] == QUOTE then !quoted else quoted);
    }
  }

  /** One ASCII byte, or bytes that are none. */
  predicate PlainRune(r: Bytes)
  {
    r != [] && ((|r| == 1 && r[0] < 128) || forall i :: 0 <= i < |r| ==> r[i] >= 128)
  }

  lemma {:induction false} HighIsQuiet(r: Bytes, quoted: bool)
    requires forall i :: 0 <= i < |r| ==> r[i] >= 128
    ensures Quiet(r, quoted) && EndsQuoted(r, quoted) == quoted
  {
    if r != [] {
      HighIsQuiet(r[1..], quoted);
    }
  }

  /** What a plain rune does to quoting. */
  lemma PlainRuneQuotes(r: Bytes, quoted: bool)
    requires PlainRune(r)
    ensures Quiet(r, quoted) <==> !(r == [LPAREN] && !quoted)
    ensures EndsQuoted(r, quoted) == if r == [QUOTE] then !quoted else quoted
  {
    if r[0] >= 128 {
      HighIsQuiet(r, quoted);
    } else {
      assert r == [r[0]] && r[1..] == [];
    }
  }

  predicate PlainRunes(steps: seq<Step>)
  {
    forall i :: 0 <= i < |steps| ==> PlainRune(steps[i].rune)
  }

  lemma {:induction false} RunesPlain(s: Bytes)
    ensures PlainRunes(Runes(s))
  {
    if s != [] {
      var n := RuneLength(s);
      var rest := s[if n == 0 then 1 else n..];
      RunesPlain(rest);
      assert Runes(s)[1..] == Runes(rest);
      assert forall i :: 0 < i < |Runes(s)| ==> Runes(s)[i] == Runes(rest)[i - 1];
      assert PlainRune(Runes(s)[0].rune);
    }
  }

  /** A text in parentheses is quiet behind the first. */
  predicate QuietInside(t: Bytes)
  {
    t != [] && t[0] == LPAREN ==> Quiet(t[1..], false)
  }

  ghost predicate AllQuietInside(tokens: seq<Bytes>)
  {
    forall i :: 0 <= i < |tokens| ==> QuietInside(tokens[i])
  }

  /** The token under way, too, and it knows whether it stands in quotes. */
  predicate CurrentQuiet(st: Scanner)
  {
    && (st.inQuote ==> st.current != [])
    && (st.current != [] && st.current[0] == LPAREN ==>
        Quiet(st.current[1..], false) && EndsQuoted(st.current[1..], false) == st.inQuote)
  }

  lemma WriteQuiet(st: Scanner, r: Bytes)
    requires CurrentQuiet(st) && PlainRune(r) && !(r == [LPAREN] && !st.inQuote)
    ensures var now := st.current + r;
            now[0] == LPAREN ==>
              && Quiet(now[1..], false)
              && EndsQuoted(now[1..], false) == (if r == [QUOTE] then !st.inQuote else st.inQuote)
  {
    PlainRuneQuotes(r, st.inQuote);
    if st.current != [] {
      assert (st.current + r)[1..] == st.current[1..] + r;
      QuietConcat(st.current[1..], r, false);
    } else {
      assert st.current + r == r;
      assert r[0] == LPAREN ==> r == [LPAREN];
    }
  }

  lemma ScanQuiet(st: Scanner, r: Bytes)
    requires CurrentQuiet(st) && AllQuietInside(st.tokens) && PlainRune(r)
    ensures CurrentQuiet(Scan(st, r)) && AllQuietInside(Scan(st, r).tokens)
  {
    if r == [LPAREN] && !st.inQuote {
      assert [] + r == r && r[1..] == [];
    } else {
      WriteQuiet(st, r);
    }
  }

  lemma {:induction false} TokensQuiet(steps: seq<Step>, st: Scanner)
    requires CurrentQuiet(st) && AllQuietInside(st.tokens) && PlainRunes(steps) && Proper(steps)
    ensures AllQuietInside(TokensOf(steps, st))
  {
    if steps != [] {
      var rest := steps[1..];
      ScanQuiet(st, steps[0].rune);
      assert forall i :: 0 <= i < |rest| ==> rest[i] == steps[i + 1];
      if steps[0].atLastByte {
        assert rest == [];
      } else {
        TokensQuiet(rest, Scan(st, steps[0].rune));
      }
    }
  }

  ghost predicate NoneOpens(tokens: seq<Bytes>)
  {
    forall i :: 0 <= i < |tokens| ==> tokens[i] != [] && tokens[i][0] != LPAREN
  }

  predicate CurrentCloses(st: Scanner)
  {
    (st.current != [] ==> st.current[0] != LPAREN) && (st.inQuote ==> st.current != [])
  }

  lemma ScanCloses(st: Scanner, r: Bytes)
    requires CurrentCloses(st) && NoneOpens(st.tokens) && PlainRune(r) && !(r == [LPAREN] && !st.inQuote)
    ensures CurrentCloses(Scan(st, r)) && NoneOpens(Scan(st, r).tokens)
    ensures Scan(st, r).inQuote == if r == [QUOTE] then !st.inQuote else st.inQuote
  {
    assert (st.current + r)[0] == if st.current == [] then r[0] else st.current[0];
    assert r[0] == LPAREN ==> r == [LPAREN];
  }

  /** In a quiet text no token starts with a parenthesis. */
  lemma {:induction false} QuietTokens(s: Bytes, st: Scanner)
    requires CurrentCloses(st) && NoneOpens(st.tokens) && Quiet(s, st.inQuote)
    ensures NoneOpens(TokensOf(Runes(s), st))
  {
    if s != [] {
      var n := RuneLength(s);
      var k := if n == 0 then 1 else n;
      var steps, rest := Runes(s), s[k..];
      RunesPlain(s);
      var r := steps[0].rune;
      assert steps[1..] == Runes(rest);
      assert s == s[..k] + rest;
      QuietConcat(s[..k], rest, st.inQuote);
      RuneQuotes(s, st.inQuote);
      ScanCloses(st, r);
      if steps[0].atLastByte {
        assert rest == [];
        assert TokensOf(Runes(rest), Pass(st, steps[0])) == Pass(st, steps[0]).tokens;
      } else {
        QuietTokens(rest, Scan(st, r));
      }
    }
  }

  /** The first rune of a text quotes as the bytes it stands for. */
  lemma RuneQuotes(s: Bytes, quoted: bool)
    requires s != [] && Quiet(s[..if RuneLength(s) == 0 then 1 else RuneLength(s)], quoted)
    ensures var n := RuneLength(s);
            var r := Runes(s)[0].rune;
            && !(r == [LPAREN] && !quoted)
            && EndsQuoted(s[..if n == 0 then 1 else n], quoted) == if r == [QUOTE] then !quoted else quoted
  {
    var n := RuneLength(s);
    if n == 0 {
      assert s[..1] == [s[0]];
      HighIsQuiet(s[..1], quoted);
    } else {
      RunesPlain(s);
      assert Runes(s)[0].rune == s[..n];
      PlainRuneQuotes(s[..n], quoted);
    }
  }

  lemma {:induction false} AtomsHaveText(tokens: seq<Bytes>)
    requires NoneOpens(tokens)
    ensures Nonempty(tokens) && TokenTexts(tokens).Done? && TokensText(tokens).Done?
  {
    if tokens != [] {
      assert forall i :: 0 <= i < |tokens| - 1 ==> tokens[1..][i] == tokens[i + 1];
      AtomsHaveText(tokens[1..]);
    }
  }

  /** A token has a text unless it is a lone parenthesis: inside it, nothing opens. */
  lemma QuietTokenText(token: Bytes)
    requires token != [] && QuietInside(token)
    ensures TokenText(token) == Crashed <==> token == [LPAREN]
    ensures TokenText(token) != Failed
  {
    if token[0] == LPAREN && |token| >= 2 {
      var inner, last := token[1..|token| - 1], token[|token| - 1..];
      assert token[1..] == inner + last;
      QuietConcat(inner, last, false);
      QuietTokens(inner, START);
      AtomsHaveText(Tokens(inner));
    }
  }

  lemma {:induction false} QuietTokenTexts(tokens: seq<Bytes>)
    requires Nonempty(tokens) && AllQuietInside(tokens)
    ensures TokenTexts(tokens) == Crashed <==> [LPAREN] in tokens
    ensures TokenTexts(tokens) != Failed
  {
    if tokens != [] {
      QuietTokenText(tokens[0]);
      assert forall i :: 0 <= i < |tokens| - 1 ==> tokens[1..][i] == tokens[i + 1];
      QuietTokenTexts(tokens[1..]);
      assert tokens == [tokens[0]] + tokens[1..];
    }
  }

  /** The reader of advanced forms never reports an error. It panics exactly on the texts
      with a lone opening parenthesis. */
  lemma AdvancedPanicsExactly(s: Bytes)
    ensures FromAdvanced(s) != Failed
    ensures FromAdvanced(s) == Crashed <==> LoneParen(Runes(Unwrapped(s)), false, false, 0)
  {
    var u := Unwrapped(s);
    var tokens := Tokens(u);
    RunesProper(u);
    RunesPlain(u);
    LoneParenIsToken(Runes(u), START);
    TokensQuiet(Runes(u), START);
    TokensNonempty(Runes(u), START);
    QuietTokenTexts(tokens);
    if |tokens| == 1 {
      QuietTokenText(tokens[0]);
    }
  }

  /** For instance, on a parenthesis by itself. */
  lemma LoneParenPanics()
    ensures FromAdvanced([LPAREN]) == Crashed
  {
    var s: Bytes := [LPAREN];
    NoSpaceAtEnd(s, 1);
    TrimKeepsStart(s);
    assert !HasSuffix(s, [RPAREN]);
    assert s[..1] == s && s[1..] == [];
    assert Runes(s) == [Step(s, true)] + Runes([]);
    AdvancedPanicsExactly(s);
  }

  // -------------------------------------------------------------------- other forms

  /** Nothing, or a pair of parentheses with nothing in it, is no text at all. */
  lemma NothingIsNothing(blank: Bytes)
    requires Blank(blank)
    ensures FromAdvanced(blank) == Done([])
  {
    assert blank + [] == blank;
    BlankFront(blank, []);
    assert TrimRight([]) == [];
  }

  lemma ListIsToken(tag: Bytes, es: seq<Element>)
    requires Word(tag) && AtomsOnly(es) && AllWordy(es)
    ensures Tokens(Advanced(List(tag, es))) == [Advanced(List(tag, es))]
  {
    var form := Advanced(List(tag, es));
    FeedListOfWords(tag, es, START);
    AdvancedAscii(List(tag, es));
    TokensAreFed(form, START);
    assert Flush(With(START, form)).tokens == [form];
  }

  lemma OneTokenText(token: Bytes)
    requires token != []
    ensures Nonempty([token]) && TokensText([token]) == TokenText(token)
  {
    assert [token][0] == token;
  }

  /** Parentheses around a list of words change nothing. */
  lemma ExtraParens(tag: Bytes, es: seq<Element>)
    requires Word(tag) && AtomsOnly(es) && AllWordy(es) && es != []
    ensures FromAdvanced([LPAREN] + Advanced(List(tag, es)) + [RPAREN]) == Done(Canonical(List(tag, es)))
  {
    var form := Advanced(List(tag, es));
    UnwrappedList(form);
    ListIsToken(tag, es);
    OneTokenText(form);
    Regroup([LPAREN], tag, AdvancedTail(es));
    WordsTokenText(tag, es, RPAREN);
  }

  /** Behind a closing parenthesis that closes nothing, spaces no longer separate. */
  lemma StrayCloseJoins(w: Bytes, rest: Bytes)
    requires Word(w) && Inert(rest, -1)
    ensures Tokens(w + [RPAREN] + rest) == [w + [RPAREN] + rest]
  {
    var s := w + [RPAREN] + rest;
    FeedConcat(w + [RPAREN], rest, START);
    FeedConcat(w, [RPAREN], START);
    FeedInert(w, START);
    assert [] + w == w;
    FeedByte(RPAREN, START.(current := w));
    FeedInert(rest, Scanner([], w + [RPAREN], -1, false));
    TokensAreFed(s, START);
  }

  /** AdvancedForm prints nothing for a star form. */
  lemma StarFormsVanish(e: Element)
    requires e.IsStarForm()
    ensures Advanced(e) == []
  {
  }
}

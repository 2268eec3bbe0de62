/** Which elements survive the advanced form: written by AdvancedForm and read back by
    advancedToCanonical. */
module AdvancedProofs {

  import opened Wrappers
  import opened ByteStrings
  import opened Utf8
  import opened Elements
  import opened AdvancedText

  /** ASCII, and neither space, quote nor parenthesis. */
  predicate WordByte(c: byte)
  {
    c < 128 && !(9 <= c <= 13) && c != SPACE && c != QUOTE && c != LPAREN && c != RPAREN
  }

  predicate Word(w: Bytes)
  {
    w != [] && forall i :: 0 <= i < |w| ==> WordByte(w[i])
  }

  /** A simple element whose atoms and tags are words. */
  predicate Wordy(e: Element)
  {
    match e
    case Atom(v) => Word(v)
    case List(tag, es) => Word(tag) && forall i :: 0 <= i < |es| ==> Wordy(es[i])
    case _ => false
  }

  /** An atom, or a list of at least one atom behind its tag. */
  predicate Flat(e: Element)
  {
    e.Atom? || (e.List? && e.elements != [] && forall i :: 0 <= i < |e.elements| ==> e.elements[i].Atom?)
  }

  /** An atom, or a list of at least one flat element behind its tag. */
  predicate Convertible(e: Element)
  {
    e.Atom? || (e.List? && e.elements != [] && forall i :: 0 <= i < |e.elements| ==> Flat(e.elements[i]))
  }

  // ------------------------------------------------------- scanning byte by byte

  /** The scanner's state behind a text of single-byte runes. */
  function Feed(s: Bytes, st: Scanner): Scanner
  {
    if s == [] then st else Feed(s[1..], Scan(st, [s[0]]))
  }

  predicate SingleBytes(s: Bytes)
  {
    forall i :: 0 <= i < |s| ==> s[i] < 128
  }

  lemma {:induction false} TokensAreFed(s: Bytes, st: Scanner)
    requires SingleBytes(s)
    ensures TokensOf(Runes(s), st) == if s == [] then st.tokens else Flush(Feed(s, st)).tokens
  {
    if s != [] {
      var step := Step([s[0]], |s| == 1);
      assert s[..1] == [s[0]];
      assert Runes(s) == [step] + Runes(s[1..]);
      assert Runes(s)[1..] == Runes(s[1..]);
      TokensAreFed(s[1..], Pass(st, step));
    }
  }

  lemma {:induction false} FeedConcat(a: Bytes, b: Bytes, st: Scanner)
    ensures Feed(a + b, st) == Feed(b, Feed(a, st))
  {
    if a == [] {
      assert a + b == b;
    } else {
      assert (a + b)[1..] == a[1..] + b;
      FeedConcat(a[1..], b, Scan(st, [a[0]]));
    }
  }

  /** Delivered tokens stay delivered. */
  lemma {:induction false} FeedGrows(s: Bytes, st: Scanner)
    ensures st.tokens <= Feed(s, st).tokens
  {
    if s != [] {
      FeedGrows(s[1..], Scan(st, [s[0]]));
    }
  }

  predicate Inert(s: Bytes, depth: int)
  {
    forall i :: 0 <= i < |s| ==> WordByte(s[i]) || (s[i] == SPACE && depth != 0)
  }

  /** Word bytes, and spaces inside parentheses, only lengthen the current token. */
  lemma {:induction false} FeedInert(s: Bytes, st: Scanner)
    requires Inert(s, st.depth) && !st.inQuote
    ensures Feed(s, st) == st.(current := st.current + s)
  {
    if s == [] {
      assert st.current + s == st.current;
    } else {
      FeedInert(s[1..], Scan(st, [s[0]]));
      assert st.current + [s[0]] + s[1..] == st.current + s;
    }
  }

  lemma FeedByte(c: byte, st: Scanner)
    ensures Feed([c], st) == Scan(st, [c])
  {
    assert [c][1..] == [];
  }

  // --------------------------------------------------------------- lists of parts

  function Forms(es: seq<Element>): seq<Bytes>
  {
    seq(|es|, i requires 0 <= i < |es| => Advanced(es[i]))
  }

  predicate AtomsOnly(es: seq<Element>)
  {
    forall i :: 0 <= i < |es| ==> es[i].Atom?
  }

  ghost predicate AllWordy(es: seq<Element>)
  {
    forall i :: 0 <= i < |es| ==> Wordy(es[i])
  }

  lemma {:induction false} TailOfWords(es: seq<Element>)
    requires AtomsOnly(es) && AllWordy(es)
    ensures Inert(AdvancedTail(es), 1)
  {
    if es != [] {
      TailOfWords(es[1..]);
      assert Wordy(es[0]);
    }
  }

  /** Between tokens at the outer level: nothing open, nothing quoted. */
  predicate Outside(st: Scanner)
  {
    st.depth == 0 && !st.inQuote
  }

  /** The state of one token more, and none under way. */
  function With(st: Scanner, token: Bytes): Scanner
  {
    Scanner(st.tokens + [token], [], 0, false)
  }

  /** A list of words is one token, even without elements. */
  lemma FeedListOfWords(tag: Bytes, es: seq<Element>, st: Scanner)
    requires Outside(st) && st.current == [] && Word(tag) && AtomsOnly(es) && AllWordy(es)
    ensures Feed(Advanced(List(tag, es)), st) == With(st, Advanced(List(tag, es)))
  {
    var body := tag + AdvancedTail(es);
    TailOfWords(es);
    assert Advanced(List(tag, es)) == [LPAREN] + body + [RPAREN];
    FeedOpened(body, st);
    FeedConcat([LPAREN] + body, [RPAREN], st);
    FeedByte(RPAREN, Feed([LPAREN] + body, st));
  }

  lemma FeedOpened(body: Bytes, st: Scanner)
    requires Outside(st) && st.current == [] && Inert(body, 1)
    ensures Feed([LPAREN] + body, st) == Scanner(st.tokens, [LPAREN] + body, 1, false)
  {
    FeedConcat([LPAREN], body, st);
    FeedByte(LPAREN, st);
    assert [] + [LPAREN] == [LPAREN];
    FeedInert(body, Scan(st, [LPAREN]));
  }

  /** One flat part, space included, behind a pending token. */
  lemma FeedPart(e: Element, st: Scanner)
    requires Outside(st) && Flat(e) && Wordy(e)
    ensures var after := Feed([SPACE] + Advanced(e), st);
            Outside(after) && Flush(after).tokens == Flush(st).tokens + [Advanced(e)]
  {
    FeedConcat([SPACE], Advanced(e), st);
    FeedByte(SPACE, st);
    var flushed := Flush(st);
    if e.Atom? {
      FeedInert(e.value, flushed);
      assert [] + e.value == e.value;
    } else {
      FeedListOfWords(e.tag, e.elements, flushed);
    }
  }

  lemma {:induction false} FeedTail(es: seq<Element>, st: Scanner)
    requires Outside(st) && AllWordy(es) && forall i :: 0 <= i < |es| ==> Flat(es[i])
    ensures var after := Feed(AdvancedTail(es), st);
            Outside(after) && Flush(after).tokens == Flush(st).tokens + Forms(es)
  {
    if es != [] {
      var part := [SPACE] + Advanced(es[0]);
      FeedConcat(part, AdvancedTail(es[1..]), st);
      FeedPart(es[0], st);
      FeedTail(es[1..], Feed(part, st));
      assert [Advanced(es[0])] + Forms(es[1..]) == Forms(es);
      assert Flush(st).tokens + [Advanced(es[0])] + Forms(es[1..]) == Flush(st).tokens + Forms(es);
    } else {
      assert Flush(st).tokens + Forms(es) == Flush(st).tokens;
    }
  }

  /** The state behind a tag and its first flat parts. */
  lemma FeedHead(tag: Bytes, es: seq<Element>)
    requires Word(tag) && AllWordy(es) && forall i :: 0 <= i < |es| ==> Flat(es[i])
    ensures var after := Feed(tag + AdvancedTail(es), START);
            Outside(after) && Flush(after).tokens == [tag] + Forms(es)
  {
    var st := Scanner([], tag, 0, false);
    FeedConcat(tag, AdvancedTail(es), START);
    FeedInert(tag, START);
    assert [] + tag == tag;
    assert Feed(tag, START) == st;
    assert Flush(st).tokens == [tag];
    FeedTail(es, st);
  }

  lemma {:induction false} AdvancedAscii(e: Element)
    requires Wordy(e)
    ensures SingleBytes(Advanced(e))
    decreases e, 0
  {
    if e.List? {
      TailAscii(e.elements);
    }
  }

  lemma {:induction false} TailAscii(es: seq<Element>)
    requires AllWordy(es)
    ensures SingleBytes(AdvancedTail(es))
    decreases es, 1
  {
    if es != [] {
      AdvancedAscii(es[0]);
      TailAscii(es[1..]);
    }
  }

  lemma TokensOfBody(tag: Bytes, es: seq<Element>)
    requires Word(tag) && AllWordy(es)
    ensures Tokens(tag + AdvancedTail(es)) == Flush(Feed(tag + AdvancedTail(es), START)).tokens
  {
    TailAscii(es);
    TokensAreFed(tag + AdvancedTail(es), START);
  }

  // ------------------------------------------------------------ where it succeeds

  lemma WordText(w: Bytes)
    requires Word(w)
    ensures TokenText(w) == Done(LV(w))
  {
    assert WordByte(w[0]);
  }

  lemma ListText(tag: Bytes, es: seq<Element>)
    ensures Canonical(List(tag, es)) == [LPAREN] + (LV(tag) + CanonicalAll(es)) + [RPAREN]
  {
    Regroup([LPAREN], LV(tag), CanonicalAll(es));
  }

  /** A token of a tag and words in parentheses converts to the list's canonical text,
      unless it has no elements: then only its tag is left. The token's last byte is cut
      off unseen, be it the closing parenthesis or not. */
  lemma WordsTokenText(tag: Bytes, es: seq<Element>, last: byte)
    requires Word(tag) && AtomsOnly(es) && AllWordy(es)
    ensures TokenText([LPAREN] + (tag + AdvancedTail(es)) + [last]) ==
            Done(if es == [] then LV(tag) else Canonical(List(tag, es)))
  {
    var body := tag + AdvancedTail(es);
    var token := [LPAREN] + body + [last];
    assert token[1..|token| - 1] == body;
    BodyText(tag, es);
    InnerTokens(token);
    TokensNonempty(Runes(body), START);
    ListText(tag, es);
    if es == [] {
      assert [tag] + Forms(es) == [tag];
      WordText(tag);
    }
  }

  lemma BodyText(tag: Bytes, es: seq<Element>)
    requires Word(tag) && AtomsOnly(es) && AllWordy(es)
    ensures Tokens(tag + AdvancedTail(es)) == [tag] + Forms(es)
    ensures Nonempty([tag] + Forms(es)) && TokenTexts([tag] + Forms(es)) == Done(LV(tag) + CanonicalAll(es))
  {
    TokensOfBody(tag, es);
    FeedHead(tag, es);
    assert forall i :: 0 <= i < |es| ==> Wordy(es[i]) && Word(es[i].value);
    PartTexts(es);
    WordText(tag);
    assert ([tag] + Forms(es))[1..] == Forms(es);
  }

  lemma FormNonempty(e: Element)
    requires Wordy(e)
    ensures Advanced(e) != []
  {
  }

  lemma {:induction false} PartTexts(es: seq<Element>)
    requires AtomsOnly(es) && AllWordy(es)
    ensures Nonempty(Forms(es)) && TokenTexts(Forms(es)) == Done(CanonicalAll(es))
  {
    if es != [] {
      PartTexts(es[1..]);
      assert Forms(es)[1..] == Forms(es[1..]);
      assert Wordy(es[0]);
      WordText(es[0].value);
      assert forall i :: 0 < i < |es| ==> Forms(es)[i] == Forms(es[1..])[i - 1];
    }
  }

  lemma {:induction false} FlatTexts(es: seq<Element>)
    requires AllWordy(es) && forall i :: 0 <= i < |es| ==> Flat(es[i])
    ensures Nonempty(Forms(es)) && TokenTexts(Forms(es)) == Done(CanonicalAll(es))
  {
    if es != [] {
      FlatTexts(es[1..]);
      assert Forms(es)[1..] == Forms(es[1..]);
      assert forall i :: 0 < i < |es| ==> Forms(es)[i] == Forms(es[1..])[i - 1];
      assert Wordy(es[0]);
      FormNonempty(es[0]);
      if es[0].Atom? {
        WordText(es[0].value);
      } else {
        Regroup([LPAREN], es[0].tag, AdvancedTail(es[0].elements));
        WordsTokenText(es[0].tag, es[0].elements, RPAREN);
      }
    }
  }

  lemma UnwrappedAtom(v: Bytes)
    requires Word(v)
    ensures Unwrapped(v) == v
  {
    assert WordByte(v[0]) && WordByte(v[|v| - 1]);
    NoSpaceAtEnd(v, 1);
    TrimKeepsStart(v);
  }

  /** The outer parentheses come off. */
  lemma UnwrappedList(body: Bytes)
    ensures Unwrapped([LPAREN] + body + [RPAREN]) == body
  {
    var s := [LPAREN] + body + [RPAREN];
    assert s[1..|s| - 1] == body && s[..1] == [LPAREN] && s[|s| - 1..] == [RPAREN];
    NoSpaceAtEnd(s, 1);
    TrimKeepsStart(s);
  }

  lemma ConvertsBy(e: Element, body: Bytes)
    requires e.List? && body == e.tag + AdvancedTail(e.elements)
    ensures Nonempty(Tokens(body)) && FromAdvanced(Advanced(e)) == TokensText(Tokens(body))
  {
    Regroup([LPAREN], e.tag, AdvancedTail(e.elements));
    UnwrappedList(body);
    TokensNonempty(Runes(body), START);
  }

  lemma AtomConverts(v: Bytes)
    requires Word(v)
    ensures FromAdvanced(v) == Done(LV(v))
  {
    UnwrappedAtom(v);
    TokensNonempty(Runes(v), START);
    assert AdvancedTail([]) == [] && v + [] == v;
    TokensOfBody(v, []);
    FeedHead(v, []);
    assert [v] + Forms([]) == [v];
    WordText(v);
  }

  lemma TagAndFormsText(tag: Bytes, es: seq<Element>)
    requires Word(tag) && AllWordy(es) && es != [] && forall i :: 0 <= i < |es| ==> Flat(es[i])
    ensures Nonempty([tag] + Forms(es)) && TokensText([tag] + Forms(es)) == Done(Canonical(List(tag, es)))
  {
    FlatTexts(es);
    WordText(tag);
    assert ([tag] + Forms(es))[1..] == Forms(es);
    ListText(tag, es);
  }

  lemma ConvertibleConverts(e: Element)
    requires Wordy(e) && e.List? && Convertible(e)
    ensures FromAdvanced(Advanced(e)) == Done(Canonical(e))
  {
    ConvertsBy(e, e.tag + AdvancedTail(e.elements));
    TokensOfBody(e.tag, e.elements);
    FeedHead(e.tag, e.elements);
    TagAndFormsText(e.tag, e.elements);
  }

  // -------------------------------------------------------------- where it fails

  /** The texts differ at some position both have. */
  predicate Diverge(x: Bytes, y: Bytes)
  {
    exists k :: 0 <= k < |x| && k < |y| && x[k] != y[k]
  }

  lemma {:induction false} SplitAt(es: seq<Element>, i: nat)
    requires i < |es|
    ensures CanonicalAll(es) == CanonicalAll(es[..i]) + (Canonical(es[i]) + CanonicalAll(es[i + 1..]))
    ensures AdvancedTail(es) == AdvancedTail(es[..i]) + ([SPACE] + Advanced(es[i]) + AdvancedTail(es[i + 1..]))
  {
    if i == 0 {
      assert es[..0] == [];
      assert [] + (Canonical(es[0]) + CanonicalAll(es[1..])) == CanonicalAll(es);
      assert [] + ([SPACE] + Advanced(es[0]) + AdvancedTail(es[1..])) == AdvancedTail(es);
    } else {
      SplitAt(es[1..], i - 1);
      assert es[1..][..i - 1] == es[..i][1..] && es[1..][i..] == es[i + 1..];
      Regroup(Canonical(es[0]), CanonicalAll(es[..i][1..]), Canonical(es[i]) + CanonicalAll(es[i + 1..]));
      Regroup([SPACE] + Advanced(es[0]), AdvancedTail(es[..i][1..]),
              [SPACE] + Advanced(es[i]) + AdvancedTail(es[i + 1..]));
    }
  }

  /** A list that is not flat loses its shape: some start of its form is already
      delivered as a token whose text diverges from the list's canonical text. */
  lemma BadToken(e: Element, st: Scanner) returns (n: nat, token: Bytes)
    requires Wordy(e) && e.List? && !Flat(e) && Outside(st) && st.current == []
    ensures n <= |Advanced(e)| && token != []
    ensures Feed(Advanced(e)[..n], st).tokens == st.tokens + [token]
    ensures TokenText(token).Done? && Diverge(TokenText(token).value, Canonical(e))
  {
    var form, c := Advanced(e), Canonical(e);
    assert c[0] == LPAREN;
    DecimalDigit(|e.tag|, 0);
    assert IsDigit(LV(e.tag)[0]);
    if e.elements == [] {
      n, token := |form|, form;
      assert form[..n] == form;
      FeedListOfWords(e.tag, [], st);
      assert AdvancedTail([]) == [] && e.tag + [] == e.tag;
      assert form == [LPAREN] + (e.tag + AdvancedTail([])) + [RPAREN];
      WordsTokenText(e.tag, [], RPAREN);
      assert LV(e.tag)[0] != c[0];
    } else {
      var j := FirstList(e.elements);
      var words := e.elements[..j];
      var body := e.tag + AdvancedTail(words);
      token := [LPAREN] + body + [SPACE];
      n := |token| + 1;
      FormStart(e, j);
      TailOfWords(words);
      FeedOpened(body, st);
      FeedConcat([LPAREN] + body, [SPACE], st);
      FeedByte(SPACE, Feed([LPAREN] + body, st));
      FeedConcat(token, [LPAREN], st);
      FeedByte(LPAREN, Feed(token, st));
      assert form[..n] == token + [LPAREN];
      WordsTokenText(e.tag, words, SPACE);
      NestedDiverges(e, j);
    }
  }

  lemma {:induction false} FirstList(es: seq<Element>) returns (j: nat)
    requires AllWordy(es) && !AtomsOnly(es)
    ensures j < |es| && es[j].List? && AtomsOnly(es[..j])
  {
    assert Wordy(es[0]);
    if es[0].List? {
      j := 0;
    } else {
      j := FirstList(es[1..]);
      j := j + 1;
      assert forall i :: 0 < i < j ==> es[i] == es[1..][i - 1];
    }
  }

  /** The form up to the first parenthesis inside it. */
  lemma FormStart(e: Element, j: nat)
    requires e.List? && j < |e.elements| && e.elements[j].List?
    ensures var start := [LPAREN] + (e.tag + AdvancedTail(e.elements[..j])) + [SPACE] + [LPAREN];
            |start| <= |Advanced(e)| && Advanced(e)[..|start|] == start
  {
    SplitAt(e.elements, j);
    var tail := AdvancedTail(e.elements[..j]);
    var rest := [SPACE] + Advanced(e.elements[j]) + AdvancedTail(e.elements[j + 1..]);
    assert rest[0] == SPACE && rest[1] == LPAREN;
    assert Advanced(e) == [LPAREN] + e.tag + (tail + rest) + [RPAREN];
  }

  lemma NestedDiverges(e: Element, j: nat)
    requires e.List? && j < |e.elements| && e.elements[j].List?
    ensures Diverge(if j == 0 then LV(e.tag) else Canonical(List(e.tag, e.elements[..j])), Canonical(e))
  {
    var c, words := Canonical(e), e.elements[..j];
    if j == 0 {
      DecimalDigit(|e.tag|, 0);
      assert LV(e.tag)[0] != c[0];
    } else {
      SplitAt(e.elements, j);
      var rest := Canonical(e.elements[j]) + CanonicalAll(e.elements[j + 1..]);
      var head := [LPAREN] + LV(e.tag) + CanonicalAll(words);
      assert c == [LPAREN] + LV(e.tag) + (CanonicalAll(words) + rest) + [RPAREN];
      assert rest[0] == LPAREN && c[|head|] == LPAREN;
      assert Canonical(List(e.tag, words))[|head|] == RPAREN;
    }
  }

  lemma {:induction false} TextsConcat(xs: seq<Bytes>, ys: seq<Bytes>)
    requires Nonempty(xs) && Nonempty(ys) && TokenTexts(xs).Done?
    ensures Nonempty(xs + ys) && TokenTexts(xs + ys) == Prepend(TokenTexts(xs).value, TokenTexts(ys))
  {
    assert Nonempty(xs + ys);
    if xs == [] {
      assert xs + ys == ys;
      PrependTwice([], [], TokenTexts(ys));
    } else {
      assert (xs + ys)[1..] == xs[1..] + ys;
      TextsConcat(xs[1..], ys);
      PrependTwice(TokenText(xs[0]).value, TokenTexts(xs[1..]).value, TokenTexts(ys));
    }
  }

  lemma {:induction false} FirstNotFlat(es: seq<Element>) returns (i: nat)
    requires AllWordy(es) && !(forall k :: 0 <= k < |es| ==> Flat(es[k]))
    ensures i < |es| && es[i].List? && !Flat(es[i]) && forall k :: 0 <= k < i ==> Flat(es[k])
  {
    assert Wordy(es[0]);
    if !Flat(es[0]) {
      i := 0;
    } else {
      assert exists k :: 0 <= k < |es[1..]| && !Flat(es[1..][k]);
      i := FirstNotFlat(es[1..]);
      i := i + 1;
      assert forall k :: 0 < k < i ==> es[k] == es[1..][k - 1];
    }
  }

  /** The tokens of a list's body start with those of its flat elements and the bad one. */
  lemma BodyTokens(tag: Bytes, es: seq<Element>, i: nat) returns (token: Bytes, more: seq<Bytes>)
    requires Word(tag) && AllWordy(es) && i < |es| && es[i].List? && !Flat(es[i])
    requires forall k :: 0 <= k < i ==> Flat(es[k])
    ensures token != [] && Tokens(tag + AdvancedTail(es)) == [tag] + Forms(es[..i]) + [token] + more
    ensures TokenText(token).Done? && Diverge(TokenText(token).value, Canonical(es[i]))
  {
    FeedHead(tag, es[..i]);
    var st := Feed(tag + AdvancedTail(es[..i]), START);
    FeedByte(SPACE, st);
    var n: nat;
    n, token := BadToken(es[i], Flush(st));
    more := TokensBehind(tag, es, i, n);
  }

  /** What is delivered within an element's form comes first in the end. */
  lemma TokensBehind(tag: Bytes, es: seq<Element>, i: nat, n: nat) returns (more: seq<Bytes>)
    requires Word(tag) && AllWordy(es) && i < |es| && n <= |Advanced(es[i])|
    ensures Tokens(tag + AdvancedTail(es)) ==
            Feed(Advanced(es[i])[..n], Feed([SPACE], Feed(tag + AdvancedTail(es[..i]), START))).tokens + more
  {
    var head, form, tail := tag + AdvancedTail(es[..i]), Advanced(es[i]), AdvancedTail(es[i + 1..]);
    SplitAt(es, i);
    BodySplit(tag, AdvancedTail(es[..i]), form, n, tail);
    TokensOfBody(tag, es);
    more := FeedThrough(head, form[..n], form[n..] + tail);
  }

  lemma BodySplit(tag: Bytes, front: Bytes, form: Bytes, n: nat, tail: Bytes)
    requires n <= |form|
    ensures tag + (front + ([SPACE] + form + tail)) == tag + front + [SPACE] + form[..n] + (form[n..] + tail)
  {
    assert form == form[..n] + form[n..];
  }

  lemma FeedThrough(head: Bytes, part: Bytes, rest: Bytes) returns (more: seq<Bytes>)
    ensures Flush(Feed(head + [SPACE] + part + rest, START)).tokens ==
            Feed(part, Feed([SPACE], Feed(head, START))).tokens + more
  {
    FeedConcat(head, [SPACE], START);
    FeedConcat(head + [SPACE], part, START);
    FeedConcat(head + [SPACE] + part, rest, START);
    var st := Feed(head + [SPACE] + part, START);
    FeedGrows(rest, st);
    more := Flush(Feed(rest, st)).tokens[|st.tokens|..];
  }

  lemma EmptyListFails(tag: Bytes)
    requires Word(tag)
    ensures FromAdvanced(Advanced(List(tag, []))) == Done(LV(tag))
  {
    ConvertsBy(List(tag, []), tag + AdvancedTail([]));
    TokensOfBody(tag, []);
    FeedHead(tag, []);
    assert [tag] + Forms([]) == [tag];
    WordText(tag);
  }

  /** Tokens that go wrong at one place make a text that is not the list's. */
  lemma WrongTextDiverges(tag: Bytes, es: seq<Element>, i: nat, token: Bytes, more: seq<Bytes>)
    requires Word(tag) && AllWordy(es) && i < |es| && forall k :: 0 <= k < i ==> Flat(es[k])
    requires token != [] && TokenText(token).Done? && Diverge(TokenText(token).value, Canonical(es[i]))
    requires Nonempty([tag] + Forms(es[..i]) + [token] + more)
    ensures TokensText([tag] + Forms(es[..i]) + [token] + more) != Done(Canonical(List(tag, es)))
  {
    var known := [tag] + Forms(es[..i]) + [token];
    KnownTexts(tag, es[..i], token);
    assert forall k :: 0 <= k < |more| ==> more[k] == (known + more)[|known| + k];
    TextsConcat(known, more);
    if TokenTexts(more).Done? {
      SplitAt(es, i);
      OutputDiverges(LV(tag), CanonicalAll(es[..i]), TokenText(token).value, Canonical(es[i]),
                     TokenTexts(more).value, CanonicalAll(es[i + 1..]));
    }
  }

  lemma NotConvertibleFails(e: Element)
    requires Wordy(e) && e.List? && !Convertible(e)
    ensures FromAdvanced(Advanced(e)) != Done(Canonical(e))
  {
    if e.elements == [] {
      EmptyListFails(e.tag);
    } else {
      var body := e.tag + AdvancedTail(e.elements);
      ConvertsBy(e, body);
      var i := FirstNotFlat(e.elements);
      var token, more := BodyTokens(e.tag, e.elements, i);
      WrongTextDiverges(e.tag, e.elements, i, token, more);
    }
  }

  lemma KnownTexts(tag: Bytes, es: seq<Element>, token: Bytes)
    requires Word(tag) && AllWordy(es) && forall k :: 0 <= k < |es| ==> Flat(es[k])
    requires token != [] && TokenText(token).Done?
    ensures Nonempty([tag] + Forms(es) + [token])
    ensures TokenTexts([tag] + Forms(es) + [token]) == Done(LV(tag) + CanonicalAll(es) + TokenText(token).value)
  {
    FlatTexts(es);
    WordText(tag);
    assert ([tag] + Forms(es))[1..] == Forms(es);
    assert Nonempty([tag] + Forms(es));
    assert [token][1..] == [] && TokenText(token).value + [] == TokenText(token).value;
    TextsConcat([tag] + Forms(es), [token]);
  }

  lemma OutputDiverges(tag: Bytes, front: Bytes, x: Bytes, y: Bytes, more: Bytes, rest: Bytes)
    requires Diverge(x, y)
    ensures [LPAREN] + (tag + front + x + more) + [RPAREN] != [LPAREN] + tag + (front + (y + rest)) + [RPAREN]
  {
    var k :| 0 <= k < |x| && k < |y| && x[k] != y[k];
    var n := 1 + |tag| + |front| + k;
    assert ([LPAREN] + (tag + front + x + more) + [RPAREN])[n] == x[k];
    assert ([LPAREN] + tag + (front + (y + rest)) + [RPAREN])[n] == y[k];
  }

  /** The advanced form of a simple element over words converts back to its canonical
      text exactly when the element is an atom, or a list with elements whose lists, too,
      have elements and hold only atoms. */
  lemma AdvancedRoundTripExactly(e: Element)
    requires Wordy(e)
    ensures FromAdvanced(Advanced(e)) == Done(Canonical(e)) <==> Convertible(e)
  {
    if e.Atom? {
      AtomConverts(e.value);
    } else if Convertible(e) {
      ConvertibleConverts(e);
    } else {
      NotConvertibleFails(e);
    }
  }

  // ------------------------------------------------------- white space and quotes

  /** Space, tab, line feed, carriage return. */
  predicate Gap(s: Bytes)
  {
    forall i :: 0 <= i < |s| ==> s[i] == 32 || s[i] == 9 || s[i] == 10 || s[i] == 13
  }

  lemma {:induction false} FeedGap(s: Bytes, st: Scanner)
    requires Gap(s) && Outside(st)
    ensures Feed(s, st) == if s == [] then st else Flush(st)
  {
    if s != [] {
      FeedGap(s[1..], Flush(st));
    }
  }

  /** Words, each with white space behind it. */
  function Spaced(words: seq<Bytes>, gaps: seq<Bytes>): Bytes
    requires |words| == |gaps|
  {
    if words == [] then [] else words[0] + (gaps[0] + Spaced(words[1..], gaps[1..]))
  }

  predicate WellSpaced(words: seq<Bytes>, gaps: seq<Bytes>)
  {
    && |words| == |gaps|
    && (forall i :: 0 <= i < |words| ==> Word(words[i]) && Gap(gaps[i]))
    && (forall i :: 0 <= i < |words| - 1 ==> gaps[i] != [])
  }

  lemma FeedWordAndGap(w: Bytes, g: Bytes, rest: Bytes, st: Scanner)
    requires Word(w) && Gap(g) && Outside(st) && st.current == []
    ensures var after := st.(current := w);
            Feed(w + (g + rest), st) == Feed(rest, if g == [] then after else Flush(after))
  {
    FeedConcat(w, g + rest, st);
    FeedInert(w, st);
    assert [] + w == w;
    FeedConcat(g, rest, st.(current := w));
    FeedGap(g, st.(current := w));
  }

  lemma {:induction false} FeedSpaced(words: seq<Bytes>, gaps: seq<Bytes>, st: Scanner)
    requires WellSpaced(words, gaps) && Outside(st) && st.current == []
    ensures SingleBytes(Spaced(words, gaps))
    ensures Flush(Feed(Spaced(words, gaps), st)).tokens == st.tokens + words
  {
    if words == [] {
      assert st.tokens + words == st.tokens;
    } else {
      var w, g, rest := words[0], gaps[0], Spaced(words[1..], gaps[1..]);
      assert forall i :: 0 <= i < |words| - 1 ==> words[1..][i] == words[i + 1] && gaps[1..][i] == gaps[i + 1];
      var after := st.(current := w);
      FeedWordAndGap(w, g, rest, st);
      if g == [] {
        assert words[1..] == [] && rest == [];
        assert words == [w];
      } else {
        FeedSpaced(words[1..], gaps[1..], Flush(after));
        assert st.tokens + [w] + words[1..] == st.tokens + words;
      }
      SingleBytesConcat(w, g, rest);
    }
  }

  lemma SingleBytesConcat(a: Bytes, b: Bytes, c: Bytes)
    requires SingleBytes(a) && SingleBytes(b) && SingleBytes(c)
    ensures SingleBytes(a + (b + c))
  {
  }

  /** Words come apart at any runs of white space. */
  lemma WordsAreTokens(words: seq<Bytes>, gaps: seq<Bytes>)
    requires WellSpaced(words, gaps)
    ensures Tokens(Spaced(words, gaps)) == words
  {
    var s := Spaced(words, gaps);
    FeedSpaced(words, gaps, START);
    TokensAreFed(s, START);
    assert [] + words == words;
    if words != [] {
      assert Word(words[0]);
      assert |s| >= |words[0]|;
    }
  }

  lemma {:induction false} FeedQuoted(s: Bytes, st: Scanner)
    requires QUOTE !in s && st.inQuote
    ensures Feed(s, st) == st.(current := st.current + s)
  {
    if s == [] {
      assert st.current + s == st.current;
    } else {
      FeedQuoted(s[1..], Scan(st, [s[0]]));
      assert st.current + [s[0]] + s[1..] == st.current + s;
    }
  }

  /** White space around an advanced form changes nothing. */
  lemma BlanksAround(front: Bytes, e: Element, back: Bytes)
    requires Blank(front) && Blank(back) && Wordy(e)
    ensures FromAdvanced(front + Advanced(e) + back) == FromAdvanced(Advanced(e))
  {
    var c := Advanced(e);
    assert c != [] && c[0] < 128 && !(9 <= c[0] <= 13) && c[0] != SPACE;
    TrimsBlanks(front, c, back);
    TrimKeepsStart(c);
  }

  lemma QuotedTokens(body: Bytes)
    requires SingleBytes(body) && QUOTE !in body
    ensures Tokens([QUOTE] + body + [QUOTE]) == [[QUOTE] + body + [QUOTE]]
  {
    var s := [QUOTE] + body + [QUOTE];
    var open := Scanner([], [QUOTE], 0, true);
    var filled := open.(current := [QUOTE] + body);
    FeedConcat([QUOTE] + body, [QUOTE], START);
    FeedConcat([QUOTE], body, START);
    FeedByte(QUOTE, START);
    assert [] + [QUOTE] == [QUOTE];
    assert Scan(START, [QUOTE]) == open;
    FeedQuoted(body, open);
    FeedByte(QUOTE, filled);
    assert Scan(filled, [QUOTE]) == Scanner([], s, 0, false);
    TokensAreFed(s, START);
  }

  lemma QuotedIsBare(body: Bytes)
    ensures Unwrapped([QUOTE] + body + [QUOTE]) == [QUOTE] + body + [QUOTE]
  {
    var s := [QUOTE] + body + [QUOTE];
    NoSpaceAtEnd(s, 1);
    TrimKeepsStart(s);
    assert s[..1] == [QUOTE];
  }

  /** Between quotes spaces and parentheses are nothing special. The quotes stay in the
      atom. */
  lemma QuotedStays(body: Bytes)
    requires SingleBytes(body) && QUOTE !in body
    ensures FromAdvanced([QUOTE] + body + [QUOTE]) == Done(LV([QUOTE] + body + [QUOTE]))
  {
    var s := [QUOTE] + body + [QUOTE];
    QuotedIsBare(body);
    QuotedTokens(body);
    var tokens: seq<Bytes> := [s];
    assert Nonempty(tokens) && tokens[0] == s && s[0] == QUOTE;
    assert TokenText(s) == Done(LV(s));
    assert TokensText(tokens) == TokenText(tokens[0]);
  }
}

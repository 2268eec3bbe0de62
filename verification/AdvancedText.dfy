/** The advanced, human-readable form: how it is written, and the tokenizer that turns
    it back into canonical text. */
module AdvancedText {

  import opened Wrappers
  import opened ByteStrings
  import opened Elements
  import opened Utf8

  const SPACE: byte := 32
  const QUOTE: byte := 34

  // -------------------------------------------------------------------- writing

  /** Atoms bare, lists in parentheses with single spaces; star forms print as nothing. */
  function Advanced(e: Element): Bytes
    decreases e, 0
  {
    match e
    case Atom(v) => v
    case List(tag, es) => [LPAREN] + tag + AdvancedTail(es) + [RPAREN]
    case _ => []
  }

  function AdvancedTail(es: seq<Element>): Bytes
    decreases es, 1
  {
    if es == [] then [] else [SPACE] + Advanced(es[0]) + AdvancedTail(es[1..])
  }

  method AdvancedForm(e: Element) returns (s: Bytes)
    ensures s == Advanced(e)
    decreases e
  {
    match e
    case Atom(v) => s := v;
    case List(tag, es) =>
      s := [LPAREN] + tag;
      for i := 0 to |es|
        invariant [LPAREN] + tag + AdvancedTail(es) == s + AdvancedTail(es[i..])
      {
        var part := AdvancedForm(es[i]);
        assert es[i..][1..] == es[i + 1..];
        Regroup(s, [SPACE] + part, AdvancedTail(es[i + 1..]));
        s := s + ([SPACE] + part);
      }
      assert s + [] == s;
      s := s + [RPAREN];
    case _ => s := [];
  }

  // ------------------------------------------------------------------ tokenizing

  datatype Scanner = Scanner(tokens: seq<Bytes>, current: Bytes, depth: int, inQuote: bool)

  function Flush(st: Scanner): Scanner
  {
    if st.current == [] then st else st.(tokens := st.tokens + [st.current], current := [])
  }

  function Write(st: Scanner, r: Bytes): Scanner
  {
    st.(current := st.current + r)
  }

  /** One rune. An opening parenthesis outside quotes ends the current token even inside
      another parenthesis. */
  function Scan(st: Scanner, r: Bytes): Scanner
  {
    if r == [LPAREN] && !st.inQuote then
      Write(Flush(st).(depth := st.depth + 1), r)
    else if r == [RPAREN] && !st.inQuote then
      var closed := Write(st, r).(depth := st.depth - 1);
      if closed.depth == 0 then closed.(tokens := closed.tokens + [closed.current], current := []) else closed
    else if r == [QUOTE] then
      Write(st, r).(inQuote := !st.inQuote)
    else if (r == [SPACE] || r == [9] || r == [10] || r == [13]) && !st.inQuote && st.depth == 0 then
      Flush(st)
    else
      Write(st, r)
  }

  const START := Scanner([], [], 0, false)

  /** The tokens delivered by the end of the loop. The last token is delivered only
      behind a rune at the last byte. */
  function TokensOf(steps: seq<Step>, st: Scanner): seq<Bytes>
  {
    if steps == [] then st.tokens else TokensOf(steps[1..], Pass(st, steps[0]))
  }

  function Pass(st: Scanner, step: Step): Scanner
  {
    if step.atLastByte then Flush(Scan(st, step.rune)) else Scan(st, step.rune)
  }

  function Tokens(s: Bytes): seq<Bytes>
  {
    TokensOf(Runes(s), START)
  }

  method Tokenize(s: Bytes) returns (tokens: seq<Bytes>)
    ensures tokens == Tokens(s)
  {
    var steps := Runes(s);
    tokens := [];
    var current: Bytes, depth, inQuote := [], 0, false;
    for i := 0 to |steps|
      invariant TokensOf(steps, START) == TokensOf(steps[i..], Scanner(tokens, current, depth, inQuote))
    {
      assert steps[i..][1..] == steps[i + 1..];
      ghost var next := Pass(Scanner(tokens, current, depth, inQuote), steps[i]);
      tokens, current, depth, inQuote := ScanRune(steps[i].rune, tokens, current, depth, inQuote);
      if steps[i].atLastByte && |current| > 0 {
        tokens, current := tokens + [current], [];
      }
      assert Scanner(tokens, current, depth, inQuote) == next;
    }
  }

  /** The switch of the loop, on the loop's four variables. */
  method ScanRune(ch: Bytes, tokens0: seq<Bytes>, current0: Bytes, depth0: int, inQuote0: bool)
    returns (tokens: seq<Bytes>, current: Bytes, depth: int, inQuote: bool)
    ensures Scanner(tokens, current, depth, inQuote) == Scan(Scanner(tokens0, current0, depth0, inQuote0), ch)
  {
    tokens, current, depth, inQuote := tokens0, current0, depth0, inQuote0;
    if ch == [LPAREN] {
      if !inQuote {
        if |current| > 0 {
          tokens, current := tokens + [current], [];
        }
        depth := depth + 1;
      }
      current := current + ch;
    } else if ch == [RPAREN] {
      current := current + ch;
      if !inQuote {
        depth := depth - 1;
        if depth == 0 {
          tokens, current := tokens + [current], [];
        }
      }
    } else if ch == [QUOTE] {
      inQuote := !inQuote;
      current := current + ch;
    } else if ch == [SPACE] || ch == [9] || ch == [10] || ch == [13] {
      if !inQuote && depth == 0 {
        if |current| > 0 {
          tokens, current := tokens + [current], [];
        }
      } else {
        current := current + ch;
      }
    } else {
      current := current + ch;
    }
  }

  // ----------------------------------------------------------- back to canonical

  function Parens(s: Bytes): nat
  {
    if s == [] then 0 else (if s[0] == LPAREN then 1 else 0) + Parens(s[1..])
  }

  lemma {:induction false} ParensConcat(a: Bytes, b: Bytes)
    ensures Parens(a + b) == Parens(a) + Parens(b)
  {
    if a == [] {
      assert a + b == b;
    } else {
      assert (a + b)[1..] == a[1..] + b;
      ParensConcat(a[1..], b);
    }
  }

  function MaxParens(tokens: seq<Bytes>): nat
  {
    if tokens == [] then 0
    else if Parens(tokens[0]) >= MaxParens(tokens[1..]) then Parens(tokens[0])
    else MaxParens(tokens[1..])
  }

  lemma {:induction false} MaxParensSnoc(tokens: seq<Bytes>, t: Bytes, n: nat)
    requires MaxParens(tokens) <= n && Parens(t) <= n
    ensures MaxParens(tokens + [t]) <= n
  {
    if tokens == [] {
      assert tokens + [t] == [t];
    } else {
      assert (tokens + [t])[1..] == tokens[1..] + [t];
      MaxParensSnoc(tokens[1..], t, n);
    }
  }

  function StepParens(steps: seq<Step>): nat
  {
    if steps == [] then 0 else Parens(steps[0].rune) + StepParens(steps[1..])
  }

  lemma {:induction false} RunesParens(s: Bytes)
    ensures StepParens(Runes(s)) == Parens(s)
  {
    if s != [] {
      var n := if RuneLength(s) == 0 then 1 else RuneLength(s);
      RunesParens(s[n..]);
      assert s == s[..n] + s[n..];
      ParensConcat(s[..n], s[n..]);
      assert Runes(s)[1..] == Runes(s[n..]);
      if RuneLength(s) == 0 {
        assert s[..1][1..] == [];
        NoParens([0xEF, 0xBF, 0xBD]);
      }
    }
  }

  lemma {:induction false} NoParens(s: Bytes)
    requires forall i :: 0 <= i < |s| ==> s[i] != LPAREN
    ensures Parens(s) == 0
  {
    if s != [] {
      NoParens(s[1..]);
    }
  }

  /** No token holds more opening parentheses than the text it comes from. */
  lemma {:induction false} TokensWithin(steps: seq<Step>, st: Scanner, n: nat)
    requires MaxParens(st.tokens) <= n && Parens(st.current) + StepParens(steps) <= n
    ensures MaxParens(TokensOf(steps, st)) <= n
  {
    if steps != [] {
      PassWithin(st, steps[0], n);
      TokensWithin(steps[1..], Pass(st, steps[0]), n);
    }
  }

  lemma FlushWithin(st: Scanner, n: nat)
    requires MaxParens(st.tokens) <= n && Parens(st.current) <= n
    ensures MaxParens(Flush(st).tokens) <= n && Parens(Flush(st).current) <= Parens(st.current)
  {
    MaxParensSnoc(st.tokens, st.current, n);
  }

  lemma ScanWithin(st: Scanner, r: Bytes, n: nat)
    requires MaxParens(st.tokens) <= n && Parens(st.current) + Parens(r) <= n
    ensures var next := Scan(st, r);
            MaxParens(next.tokens) <= n && Parens(next.current) <= Parens(st.current) + Parens(r)
  {
    FlushWithin(st, n);
    ParensConcat(st.current, r);
    ParensConcat(Flush(st).current, r);
    MaxParensSnoc(st.tokens, st.current + r, n);
  }

  lemma PassWithin(st: Scanner, step: Step, n: nat)
    requires MaxParens(st.tokens) <= n && Parens(st.current) + Parens(step.rune) <= n
    ensures var next := Pass(st, step);
            && MaxParens(next.tokens) <= n
            && Parens(next.current) <= Parens(st.current) + Parens(step.rune)
  {
    ScanWithin(st, step.rune, n);
    FlushWithin(Scan(st, step.rune), n);
  }

  lemma InnerTokens(token: Bytes)
    requires |token| >= 2 && token[0] == LPAREN
    ensures MaxParens(Tokens(token[1..|token| - 1])) < Parens(token)
  {
    var inner, last := token[1..|token| - 1], token[|token| - 1..];
    assert token[1..] == inner + last;
    ParensConcat(inner, last);
    RunesParens(inner);
    TokensWithin(Runes(inner), START, Parens(inner));
  }

  /** A token in parentheses is tokenized and converted in turn; a lone opening
      parenthesis slices out of bounds. Any other token becomes an atom. */
  function TokenText(token: Bytes): Outcome<Bytes>
    requires token != []
    decreases Parens(token), 0, 0
  {
    if token[0] != LPAREN then Done(LV(token))
    else if |token| < 2 then Crashed
    else
      InnerTokens(token);
      TokensNonempty(Runes(token[1..|token| - 1]), START);
      TokensText(Tokens(token[1..|token| - 1]))
  }

  predicate Nonempty(tokens: seq<Bytes>)
  {
    forall i :: 0 <= i < |tokens| ==> tokens[i] != []
  }

  lemma {:induction false} TokensNonempty(steps: seq<Step>, st: Scanner)
    requires Nonempty(st.tokens)
    ensures Nonempty(TokensOf(steps, st))
  {
    if steps != [] {
      TokensNonempty(steps[1..], Pass(st, steps[0]));
    }
  }

  function TokenTexts(tokens: seq<Bytes>): Outcome<Bytes>
    requires Nonempty(tokens)
    decreases MaxParens(tokens), 1, |tokens|
  {
    if tokens == [] then Done([])
    else
      match TokenText(tokens[0])
      case Done(first) => Prepend(first, TokenTexts(tokens[1..]))
      case bad => bad
  }

  /** One token stands for itself, several make a list. */
  function TokensText(tokens: seq<Bytes>): Outcome<Bytes>
    requires Nonempty(tokens)
    decreases MaxParens(tokens), 2, |tokens|
  {
    if tokens == [] then Done([])
    else if |tokens| == 1 then TokenText(tokens[0])
    else
      match TokenTexts(tokens)
      case Done(body) => Done([LPAREN] + body + [RPAREN])
      case bad => bad
  }

  function Unwrapped(s: Bytes): Bytes
  {
    var t := TrimSpace(s);
    if HasPrefix(t, [LPAREN]) && HasSuffix(t, [RPAREN]) then
      assert t[0] == LPAREN && t[|t| - 1] == RPAREN;
      t[1..|t| - 1]
    else t
  }

  /** advancedToCanonical. */
  function FromAdvanced(s: Bytes): Outcome<Bytes>
  {
    TokensNonempty(Runes(Unwrapped(s)), START);
    TokensText(Tokens(Unwrapped(s)))
  }

  method TokensToCanonical(tokens: seq<Bytes>) returns (r: Outcome<Bytes>)
    requires Nonempty(tokens)
    ensures r == TokensText(tokens)
    decreases MaxParens(tokens), 1
  {
    if |tokens| == 0 {
      return Done([]);
    }
    if |tokens| == 1 {
      r := TokenToCanonical(tokens[0]);
      return;
    }
    var buf: Bytes := [];
    PrependTwice([], [], TokenTexts(tokens));
    for i := 0 to |tokens|
      invariant TokenTexts(tokens) == Prepend(buf, TokenTexts(tokens[i..]))
    {
      assert tokens[i..][1..] == tokens[i + 1..];
      MaxParensAt(tokens, i);
      var text := TokenToCanonical(tokens[i]);
      if !text.Done? {
        return text;
      }
      PrependTwice(buf, text.value, TokenTexts(tokens[i + 1..]));
      buf := buf + text.value;
    }
    assert buf + [] == buf;
    r := Done([LPAREN] + buf + [RPAREN]);
  }

  method TokenToCanonical(token: Bytes) returns (r: Outcome<Bytes>)
    requires token != []
    ensures r == TokenText(token)
    decreases Parens(token), 0
  {
    if token[0] != LPAREN {
      return Done(LV(token));
    }
    if |token| < 2 {
      return Crashed;
    }
    var tokens := Tokenize(token[1..|token| - 1]);
    InnerTokens(token);
    TokensNonempty(Runes(token[1..|token| - 1]), START);
    r := TokensToCanonical(tokens);
  }

  lemma {:induction false} MaxParensAt(tokens: seq<Bytes>, i: nat)
    requires i < |tokens|
    ensures Parens(tokens[i]) <= MaxParens(tokens)
  {
    if i > 0 {
      MaxParensAt(tokens[1..], i - 1);
    }
  }

  method AdvancedToCanonical(s: Bytes) returns (r: Outcome<Bytes>)
    ensures r == FromAdvanced(s)
  {
    var tokens := Tokenize(Unwrapped(s));
    TokensNonempty(Runes(Unwrapped(s)), START);
    r := TokensToCanonical(tokens);
  }
}

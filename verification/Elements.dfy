/** Restricted S-expressions: atoms, tagged lists and the five star forms, and
    their canonical text. */
module Elements {

  import opened Wrappers
  import opened ByteStrings

  const NAME_ALPHA: Bytes := [97, 108, 112, 104, 97]
  const NAME_NUMERIC: Bytes := [110, 117, 109, 101, 114, 105, 99]
  const NAME_DATE: Bytes := [100, 97, 116, 101]
  const NAME_TIME: Bytes := [116, 105, 109, 101]
  const NAME_IPV4: Bytes := [105, 112, 118, 52]
  const NAME_IPV6: Bytes := [105, 112, 118, 54]

  const DECLARED_NAMES := {NAME_ALPHA, NAME_NUMERIC, NAME_DATE, NAME_TIME, NAME_IPV4, NAME_IPV6}

  type OtherName = n: Bytes | n !in DECLARED_NAMES witness []

  /** The declared range types; any other name is carried as it stands. */
  datatype RangeType = Alpha | Numeric | Date | Time | IPv4 | IPv6 | Undeclared(name: OtherName)

  datatype RangeOp = LT | LE | GT | GE

  datatype Bound = Bound(op: RangeOp, value: Bytes)

  datatype Element =
    | Atom(value: Bytes)
    | List(tag: Bytes, elements: seq<Element>)
    | Wildcard
    | Set(members: seq<Element>)
    | Range(rangeType: RangeType, lower: Option<Bound>, upper: Option<Bound>)
    | Prefix(prefix: Bytes)
    | Suffix(suffix: Bytes)
  {
    predicate IsStarForm()
    {
      !Atom? && !List?
    }
  }

  /** A simple S-expression: atoms and lists all the way down. */
  predicate StarFree(e: Element)
  {
    match e
    case Atom(_) => true
    case List(_, es) => forall i :: 0 <= i < |es| ==> StarFree(es[i])
    case _ => false
  }

  ghost predicate Simple(rules: seq<Element>)
  {
    forall i :: 0 <= i < |rules| ==> StarFree(rules[i])
  }

  // ---------------------------------------------------------- canonical text

  const WORD_SET: Bytes := [115, 101, 116]
  const WORD_RANGE: Bytes := [114, 97, 110, 103, 101]
  const WORD_PREFIX: Bytes := [112, 114, 101, 102, 105, 120]
  const WORD_SUFFIX: Bytes := [115, 117, 102, 102, 105, 120]

  /** The name of a declared range type; an undeclared one has none. */
  function TypeName(t: RangeType): Option<Bytes>
  {
    match t
    case Alpha => Some(NAME_ALPHA)
    case Numeric => Some(NAME_NUMERIC)
    case Date => Some(NAME_DATE)
    case Time => Some(NAME_TIME)
    case IPv4 => Some(NAME_IPV4)
    case IPv6 => Some(NAME_IPV6)
    case Undeclared(_) => None
  }

  function OpName(op: RangeOp): Bytes
  {
    match op
    case LT => [108, 116]
    case LE => [108, 101]
    case GT => [103, 116]
    case GE => [103, 101]
  }

  function BoundText(b: Option<Bound>): Bytes
  {
    match b
    case None => []
    case Some(Bound(op, value)) => LV(OpName(op)) + LV(value)
  }

  function TypeText(t: RangeType): Bytes
  {
    match TypeName(t)
    case None => []
    case Some(name) => LV(name)
  }

  /** The canonical text of an element. */
  function Canonical(e: Element): (s: Bytes)
    decreases e, 0
  {
    match e
    case Atom(v) => LV(v)
    case List(tag, es) => [LPAREN] + LV(tag) + CanonicalAll(es) + [RPAREN]
    case Wildcard => [LPAREN] + LV([STAR]) + [RPAREN]
    case Set(ms) => [LPAREN] + LV([STAR]) + LV(WORD_SET) + CanonicalAll(ms) + [RPAREN]
    case Range(t, lo, hi) =>
      [LPAREN] + LV([STAR]) + LV(WORD_RANGE) + (TypeText(t) + BoundText(lo) + BoundText(hi)) + [RPAREN]
    case Prefix(p) => [LPAREN] + LV([STAR]) + LV(WORD_PREFIX) + LV(p) + [RPAREN]
    case Suffix(p) => [LPAREN] + LV([STAR]) + LV(WORD_SUFFIX) + LV(p) + [RPAREN]
  }

  function CanonicalAll(es: seq<Element>): Bytes
    decreases es, 1
  {
    if es == [] then [] else Canonical(es[0]) + CanonicalAll(es[1..])
  }

  /** The String methods: pieces written to a buffer one after the other. */
  method String(e: Element) returns (sb: Bytes)
    ensures sb == Canonical(e)
    decreases e, 0
  {
    match e
    case Atom(v) => sb := LV(v);
    case List(tag, es) =>
      sb := WriteElements([LPAREN] + LV(tag), es);
      sb := sb + [RPAREN];
    case Set(ms) =>
      sb := WriteElements([LPAREN] + LV([STAR]) + LV(WORD_SET), ms);
      sb := sb + [RPAREN];
    case Range(t, lo, hi) => sb := RangeString(t, lo, hi);
    case Wildcard => sb := [LPAREN] + LV([STAR]) + [RPAREN];
    case Prefix(p) => sb := [LPAREN] + LV([STAR]) + LV(WORD_PREFIX) + LV(p) + [RPAREN];
    case Suffix(p) => sb := [LPAREN] + LV([STAR]) + LV(WORD_SUFFIX) + LV(p) + [RPAREN];
  }

  method RangeString(t: RangeType, lo: Option<Bound>, hi: Option<Bound>) returns (sb: Bytes)
    ensures sb == [LPAREN] + LV([STAR]) + LV(WORD_RANGE) + (TypeText(t) + BoundText(lo) + BoundText(hi)) + [RPAREN]
  {
    sb := [LPAREN] + LV([STAR]) + LV(WORD_RANGE);
    var bounds := TypeText(t);
    if lo.Some? {
      bounds := bounds + (LV(OpName(lo.value.op)) + LV(lo.value.value));
    }
    if hi.Some? {
      bounds := bounds + (LV(OpName(hi.value.op)) + LV(hi.value.value));
    }
    sb := sb + bounds + [RPAREN];
  }

  method WriteElements(start: Bytes, es: seq<Element>) returns (sb: Bytes)
    ensures sb == start + CanonicalAll(es)
    decreases es, 1
  {
    sb := start;
    for i := 0 to |es|
      invariant start + CanonicalAll(es) == sb + CanonicalAll(es[i..])
    {
      var text := String(es[i]);
      assert es[i..][1..] == es[i + 1..];
      Regroup(sb, text, CanonicalAll(es[i + 1..]));
      sb := sb + text;
    }
    assert sb + [] == sb;
  }

  // ------------------------------------------------------ text of simple elements

  /** The text of a simple element alone; a star form has none here. */
  function Text(e: Element): Bytes
    decreases e, 0
  {
    match e
    case Atom(v) => LV(v)
    case List(tag, es) => [LPAREN] + LV(tag) + TextAll(es) + [RPAREN]
    case _ => []
  }

  function TextAll(es: seq<Element>): Bytes
    decreases es, 1
  {
    if es == [] then [] else Text(es[0]) + TextAll(es[1..])
  }

  lemma {:induction false} TextAllConcat(xs: seq<Element>, ys: seq<Element>)
    ensures TextAll(xs + ys) == TextAll(xs) + TextAll(ys)
  {
    if xs == [] {
      assert xs + ys == ys;
    } else {
      TextAllConcat(xs[1..], ys);
      assert (xs + ys)[0] == xs[0] && (xs + ys)[1..] == xs[1..] + ys;
      Regroup(Text(xs[0]), TextAll(xs[1..]), TextAll(ys));
    }
  }

  // ------------------------------------------------ what a star form prints as

  function BoundAtoms(b: Option<Bound>): seq<Element>
  {
    match b
    case None => []
    case Some(Bound(op, value)) => [Atom(OpName(op)), Atom(value)]
  }

  function TypeAtoms(t: RangeType): seq<Element>
  {
    match TypeName(t)
    case None => []
    case Some(name) => [Atom(name)]
  }

  /** The plain list that carries the same canonical text: a star form becomes a
      list tagged `*`. */
  function Demote(e: Element): (d: Element)
    ensures StarFree(d)
    decreases e, 0
  {
    match e
    case Atom(v) => e
    case List(tag, es) => List(tag, DemoteAll(es))
    case Wildcard => List([STAR], [])
    case Set(ms) => List([STAR], [Atom(WORD_SET)] + DemoteAll(ms))
    case Range(t, lo, hi) => List([STAR], [Atom(WORD_RANGE)] + (TypeAtoms(t) + BoundAtoms(lo) + BoundAtoms(hi)))
    case Prefix(p) => List([STAR], [Atom(WORD_PREFIX)] + [Atom(p)])
    case Suffix(p) => List([STAR], [Atom(WORD_SUFFIX)] + [Atom(p)])
  }

  function DemoteAll(es: seq<Element>): (ds: seq<Element>)
    ensures forall i :: 0 <= i < |ds| ==> StarFree(ds[i])
    decreases es, 1
  {
    seq(|es|, i requires 0 <= i < |es| => Demote(es[i]))
  }

  /** Demotion changes exactly the elements that hold a star form. */
  lemma {:induction false} DemoteFixpoint(e: Element)
    ensures Demote(e) == e <==> StarFree(e)
  {
    if e.List? {
      forall i | 0 <= i < |e.elements| {
        DemoteFixpoint(e.elements[i]);
      }
      if Demote(e) == e {
        forall i | 0 <= i < |e.elements| ensures StarFree(e.elements[i]) {
          assert Demote(e).elements[i] == Demote(e.elements[i]);
        }
      }
    }
  }

  lemma DemoteAllFixpoint(rules: seq<Element>)
    ensures DemoteAll(rules) == rules <==> Simple(rules)
  {
    forall i | 0 <= i < |rules| ensures DemoteAll(rules)[i] == rules[i] <==> StarFree(rules[i]) {
      DemoteFixpoint(rules[i]);
    }
    if Simple(rules) {
      assert DemoteAll(rules) == rules;
    }
  }

  lemma DemoteAllCons(front: seq<Element>, es: seq<Element>)
    requires es != []
    ensures front + [Demote(es[0])] + DemoteAll(es[1..]) == front + DemoteAll(es)
  {
    assert DemoteAll(es) == [Demote(es[0])] + DemoteAll(es[1..]);
  }

  lemma BoundTextIsAtoms(b: Option<Bound>)
    ensures TextAll(BoundAtoms(b)) == BoundText(b)
  {
    if b.Some? {
      var op, last := Atom(OpName(b.value.op)), [Atom(b.value.value)];
      assert TextAll(last) == LV(b.value.value) + TextAll([]);
      assert ([op] + last)[1..] == last;
    }
  }

  lemma TypeTextIsAtoms(t: RangeType)
    ensures TextAll(TypeAtoms(t)) == TypeText(t)
  {
  }

  /** What follows a range's keyword is the text of its atoms. */
  lemma RangeTextIsAtoms(t: RangeType, lo: Option<Bound>, hi: Option<Bound>)
    ensures TextAll(TypeAtoms(t) + BoundAtoms(lo) + BoundAtoms(hi)) == TypeText(t) + BoundText(lo) + BoundText(hi)
  {
    var a, b, c := TypeAtoms(t), BoundAtoms(lo), BoundAtoms(hi);
    TextAllConcat(a, b);
    TextAllConcat(a + b, c);
    assert TextAll(a) == TypeText(t) by { TypeTextIsAtoms(t); }
    assert TextAll(b) == BoundText(lo) by { BoundTextIsAtoms(lo); }
    assert TextAll(c) == BoundText(hi) by { BoundTextIsAtoms(hi); }
  }

  lemma StarText(word: Bytes, ds: seq<Element>)
    ensures Text(List([STAR], [Atom(word)] + ds)) == [LPAREN] + LV([STAR]) + LV(word) + TextAll(ds) + [RPAREN]
  {
    var front := [LPAREN] + LV([STAR]);
    assert ([Atom(word)] + ds)[1..] == ds;
    assert TextAll([Atom(word)] + ds) == LV(word) + TextAll(ds);
    assert front + (LV(word) + TextAll(ds)) == front + LV(word) + TextAll(ds);
  }

  /** An element and its demotion have the same text, so the text alone cannot tell a
      star form from a list. */
  lemma {:induction false} CanonicalIsText(e: Element)
    ensures Canonical(e) == Text(Demote(e))
    decreases e, 0
  {
    match e
    case Atom(_) =>
    case Wildcard =>
    case List(_, es) => CanonicalAllIsText(es);
    case Set(ms) =>
      CanonicalAllIsText(ms);
      StarText(WORD_SET, DemoteAll(ms));
    case Range(t, lo, hi) =>
      RangeTextIsAtoms(t, lo, hi);
      StarText(WORD_RANGE, TypeAtoms(t) + BoundAtoms(lo) + BoundAtoms(hi));
    case Prefix(p) =>
      StarText(WORD_PREFIX, [Atom(p)]);
      assert TextAll([Atom(p)]) == LV(p) + TextAll([]);
    case Suffix(p) =>
      StarText(WORD_SUFFIX, [Atom(p)]);
      assert TextAll([Atom(p)]) == LV(p) + TextAll([]);
  }

  lemma {:induction false} CanonicalAllIsText(es: seq<Element>)
    ensures CanonicalAll(es) == TextAll(DemoteAll(es))
    decreases es, 1
  {
    if es != [] {
      CanonicalIsText(es[0]);
      CanonicalAllIsText(es[1..]);
      assert DemoteAll(es)[1..] == DemoteAll(es[1..]);
    }
  }

  // ------------------------------------------------------- the words of the text

  /** The text of every kind of element, with its words spelled out. */
  lemma CanonicalWords(e: Element)
    ensures match e
            case Atom(v) => Canonical(e) == LV(v)
            case List(tag, es) => Canonical(e) == Ascii("(") + LV(tag) + CanonicalAll(es) + Ascii(")")
            case Wildcard => Canonical(e) == Ascii("(") + LV(Ascii("*")) + Ascii(")")
            case Set(ms) =>
              Canonical(e) == Ascii("(") + LV(Ascii("*")) + LV(Ascii("set")) + CanonicalAll(ms) + Ascii(")")
            case Prefix(p) =>
              Canonical(e) == Ascii("(") + LV(Ascii("*")) + LV(Ascii("prefix")) + LV(p) + Ascii(")")
            case Suffix(p) =>
              Canonical(e) == Ascii("(") + LV(Ascii("*")) + LV(Ascii("suffix")) + LV(p) + Ascii(")")
            case Range(t, lo, hi) =>
              Canonical(e) == Ascii("(") + LV(Ascii("*")) + LV(Ascii("range")) +
                (TypeText(t) + BoundText(lo) + BoundText(hi)) + Ascii(")")
  {
    assert WORD_SET == Ascii("set") && WORD_RANGE == Ascii("range");
    assert WORD_PREFIX == Ascii("prefix") && WORD_SUFFIX == Ascii("suffix");
    assert [LPAREN] == Ascii("(") && [RPAREN] == Ascii(")") && [STAR] == Ascii("*");
  }

  /** The words of ranges. */
  lemma RangeWords(v: Bytes)
    ensures TypeText(Alpha) == LV(Ascii("alpha")) && TypeText(Numeric) == LV(Ascii("numeric"))
    ensures TypeText(Date) == LV(Ascii("date")) && TypeText(Time) == LV(Ascii("time"))
    ensures TypeText(IPv4) == LV(Ascii("ipv4")) && TypeText(IPv6) == LV(Ascii("ipv6"))
    ensures BoundText(Some(Bound(LT, v))) == LV(Ascii("lt")) + LV(v)
    ensures BoundText(Some(Bound(LE, v))) == LV(Ascii("le")) + LV(v)
    ensures BoundText(Some(Bound(GT, v))) == LV(Ascii("gt")) + LV(v)
    ensures BoundText(Some(Bound(GE, v))) == LV(Ascii("ge")) + LV(v)
    ensures BoundText(None) == [] && forall name :: TypeText(Undeclared(name)) == []
  {
    TypeWords();
    assert OpName(LT) == Ascii("lt") && OpName(LE) == Ascii("le");
    assert OpName(GT) == Ascii("gt") && OpName(GE) == Ascii("ge");
  }

  lemma TypeWords()
    ensures NAME_ALPHA == Ascii("alpha") && NAME_NUMERIC == Ascii("numeric") && NAME_DATE == Ascii("date")
    ensures NAME_TIME == Ascii("time") && NAME_IPV4 == Ascii("ipv4") && NAME_IPV6 == Ascii("ipv6")
  {
  }
}

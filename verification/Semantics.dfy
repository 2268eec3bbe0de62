/** The specification's meaning of restricted S-expressions, section 5.2 and 5.3 of
    draft-hedberg-spocp-sexp-00, and how far LessPermissive decides it. Ranges other than
    dates are read in byte order here; module Ranges says what that makes of numerals. */
module Semantics {

  import opened Wrappers
  import opened ByteStrings
  import opened Elements
  import opened StarForms
  import opened Compare
  import opened Order

  // --------------------------------------------------------- the definitions

  /** The order on simple S-expressions: equal strings, and longer lists below
      their prefixes. */
  ghost predicate SimpleLE(x: Element, y: Element)
  {
    match (x, y)
    case (Atom(v), Atom(w)) => v == w
    case (List(tag, xs), List(tag', ys)) =>
      tag == tag' && |ys| <= |xs| && forall i :: 0 <= i < |ys| ==> SimpleLE(xs[i], ys[i])
    case _ => false
  }

  /** Values between two bounds, an excluded bound left out. */
  ghost predicate Between(lower: Option<Bound>, upper: Option<Bound>, v: Bytes)
  {
    && (lower.Some? ==> if lower.value.op == GT then Less(lower.value.value, v) else AtMost(lower.value.value, v))
    && (upper.Some? ==> if upper.value.op == LT then Less(v, upper.value.value) else AtMost(v, upper.value.value))
  }

  /** Instants between two dates. A bound that is no date admits nothing. */
  predicate BetweenDates(lower: Option<Bound>, upper: Option<Bound>, v: Bytes)
  {
    && ParseDate(v).Some?
    && (lower.Some? ==>
        && ParseDate(lower.value.value).Some?
        && var a, t := ParseDate(lower.value.value).value, ParseDate(v).value;
           if lower.value.op == GT then a < t else a <= t)
    && (upper.Some? ==>
        && ParseDate(upper.value.value).Some?
        && var t, b := ParseDate(v).value, ParseDate(upper.value.value).value;
           if upper.value.op == LT then t < b else t <= b)
  }

  /** The simple S-expressions an element stands for. */
  ghost predicate Denotes(t: Element, a: Element)
    decreases t
  {
    match t
    case Atom(_) => a == t
    case List(tag, es) =>
      a.List? && a.tag == tag && |a.elements| == |es| && forall i :: 0 <= i < |es| ==> Denotes(es[i], a.elements[i])
    case Wildcard => StarFree(a)
    case Set(ms) => exists i :: 0 <= i < |ms| && Denotes(ms[i], a)
    case Range(Date, lo, hi) => a.Atom? && BetweenDates(lo, hi, a.value)
    case Range(Undeclared(_), _, _) => false
    case Range(_, lo, hi) => a.Atom? && Between(lo, hi, a.value)
    case Prefix(p) => a.Atom? && p <= a.value
    case Suffix(p) => a.Atom? && exists front :: a.value == front + p
  }

  ghost predicate Bounded(a: Element, t: Element)
  {
    exists b :: Denotes(t, b) && SimpleLE(a, b)
  }

  /** The specification's s <= t: all that s stands for is bounded within t. */
  ghost predicate Included(s: Element, t: Element)
  {
    forall a :: Denotes(s, a) ==> Bounded(a, t)
  }

  // ------------------------------------------------- simple queries are exact

  predicate Strict(b: Option<Bound>)
  {
    b.Some? && (b.value.op == GT || b.value.op == LT)
  }

  /** No IP range anywhere in the element excludes a bound. */
  predicate InclusiveIP(e: Element)
  {
    match e
    case List(_, es) => forall i :: 0 <= i < |es| ==> InclusiveIP(es[i])
    case Set(ms) => forall i :: 0 <= i < |ms| ==> InclusiveIP(ms[i])
    case Range(t, lo, hi) => t.IPv4? || t.IPv6? ==> !Strict(lo) && !Strict(hi)
    case _ => true
  }

  lemma MatchTextIsBetween(lo: Option<Bound>, hi: Option<Bound>, v: Bytes)
    ensures MatchText(lo, hi, v) <==> Between(lo, hi, v)
  {
    if lo.Some? { AtMostTotal(lo.value.value, v); }
    if hi.Some? { AtMostTotal(v, hi.value.value); }
  }

  /** matchIP agrees with the written bounds on all values exactly when no excluded
      bound is itself an address the other bound lets in. */
  lemma IPRangeExactly(lo: Option<Bound>, hi: Option<Bound>)
    ensures (forall v :: MatchIP(lo, hi, v) <==> Between(lo, hi, v)) <==>
            (!(lo.Some? && lo.value.op == GT && MatchIP(None, hi, lo.value.value)) &&
             !(hi.Some? && hi.value.op == LT && MatchIP(lo, None, hi.value.value)))
  {
    if lo.Some? { AtMostTotal(lo.value.value, lo.value.value); }
    if hi.Some? { AtMostTotal(hi.value.value, hi.value.value); }
    if lo.Some? && lo.value.op == GT && MatchIP(None, hi, lo.value.value) {
      assert MatchIP(lo, hi, lo.value.value) && !Between(lo, hi, lo.value.value);
    } else if hi.Some? && hi.value.op == LT && MatchIP(lo, None, hi.value.value) {
      assert MatchIP(lo, hi, hi.value.value) && !Between(lo, hi, hi.value.value);
    } else {
      forall v ensures MatchIP(lo, hi, v) <==> Between(lo, hi, v) {
        if lo.Some? { AtMostTotal(lo.value.value, v); }
        if hi.Some? { AtMostTotal(v, hi.value.value); }
      }
    }
  }

  lemma SuffixSplit(v: Bytes, p: Bytes)
    ensures HasSuffix(v, p) <==> exists front :: v == front + p
  {
    if HasSuffix(v, p) {
      assert v == v[..|v| - |p|] + p;
    }
  }

  lemma {:induction false} DenotesSimple(t: Element, a: Element)
    requires Denotes(t, a)
    ensures StarFree(a)
    decreases t
  {
    match t
    case List(_, es) =>
      forall i | 0 <= i < |es| {
        DenotesSimple(es[i], a.elements[i]);
      }
    case Set(ms) =>
      var i :| 0 <= i < |ms| && Denotes(ms[i], a);
      DenotesSimple(ms[i], a);
    case _ =>
  }

  lemma {:induction false} SimpleLEReflexive(x: Element)
    requires StarFree(x)
    ensures SimpleLE(x, x)
  {
    if x.List? {
      forall i | 0 <= i < |x.elements| {
        SimpleLEReflexive(x.elements[i]);
      }
    }
  }

  /** An atom is matched by a leaf of a rule exactly when the leaf denotes it. */
  lemma AtomMatchIsDenoted(g: Element, t: Element)
    requires g.Atom? && !t.List? && !t.Set? && InclusiveIP(t)
    ensures LessPermissive(g, t) <==> Denotes(t, g)
  {
    match t
    case Range(_, lo, hi) => MatchTextIsBetween(lo, hi, g.value);
    case Suffix(p) => SuffixSplit(g.value, p);
    case _ =>
  }

  /** What a leaf denotes it matches: a match may ignore an excluded bound, but never
      adds one. */
  lemma DenotedIsMatched(g: Element, t: Element)
    requires g.Atom? && !t.List? && !t.Set? && Denotes(t, g)
    ensures LessPermissive(g, t)
  {
    match t
    case Range(_, lo, hi) => MatchTextIsBetween(lo, hi, g.value);
    case Suffix(p) => SuffixSplit(g.value, p);
    case _ =>
  }

  /** No query that a rule bounds is ever refused, whatever the rule is made of. */
  lemma {:induction false} BoundedIsBelow(g: Element, t: Element, b: Element)
    requires StarFree(g) && Denotes(t, b) && SimpleLE(g, b)
    ensures LessPermissive(g, t)
    decreases t
  {
    match t
    case List(_, es) =>
      forall i | 0 <= i < |es| {
        BoundedIsBelow(g.elements[i], es[i], b.elements[i]);
      }
      assert CompareLists(g, t);
    case Set(ms) =>
      var i :| 0 <= i < |ms| && Denotes(ms[i], b);
      BoundedIsBelow(g, ms[i], b);
    case Wildcard =>
    case _ =>
      assert g == b;
      DenotedIsMatched(g, t);
  }

  /** The denoted element that bounds a query the code accepts. */
  lemma {:induction false} BoundFor(g: Element, t: Element) returns (b: Element)
    requires StarFree(g) && InclusiveIP(t) && LessPermissive(g, t)
    ensures Denotes(t, b) && SimpleLE(g, b)
    decreases t, 0
  {
    match t
    case List(tag, es) =>
      assert CompareLists(g, t);
      var bs := BoundsFor(g.elements, es);
      b := List(tag, bs);
    case Set(ms) =>
      var i := SetMemberAbove(g, t);
      b := BoundFor(g, ms[i]);
    case _ =>
      b := g;
      SimpleLEReflexive(g);
      if g.Atom? {
        AtomMatchIsDenoted(g, t);
      }
  }

  lemma {:induction false} BoundsFor(gs: seq<Element>, ts: seq<Element>) returns (bs: seq<Element>)
    requires |ts| <= |gs|
    requires forall i :: 0 <= i < |ts| ==> StarFree(gs[i]) && InclusiveIP(ts[i]) && LessPermissive(gs[i], ts[i])
    ensures |bs| == |ts|
    ensures forall i :: 0 <= i < |ts| ==> Denotes(ts[i], bs[i]) && SimpleLE(gs[i], bs[i])
    decreases ts, 1
  {
    bs := [];
    if ts != [] {
      var b := BoundFor(gs[0], ts[0]);
      var rest := BoundsFor(gs[1..], ts[1..]);
      bs := [b] + rest;
      forall i | 0 <= i < |ts| ensures Denotes(ts[i], bs[i]) && SimpleLE(gs[i], bs[i]) {
        if i > 0 {
          assert gs[1..][i - 1] == gs[i] && ts[1..][i - 1] == ts[i] && rest[i - 1] == bs[i];
        }
      }
    }
  }

  /** For simple queries the code decides the specification's relation, whatever
      star forms the rule is made of: sets, nested sets, strict and date ranges. */
  lemma QueryExact(g: Element, t: Element)
    requires StarFree(g) && InclusiveIP(t)
    ensures LessPermissive(g, t) <==> Bounded(g, t)
  {
    if LessPermissive(g, t) {
      var b := BoundFor(g, t);
    }
    if Bounded(g, t) {
      var b :| Denotes(t, b) && SimpleLE(g, b);
      BoundedIsBelow(g, t, b);
    }
  }

  // ------------------------------------------------- soundness for all rules

  /** Whatever the left element is made of, the code's s <= t implies the
      specification's, as long as t's ranges exclude no bound and bound no date. */
  lemma Sound(s: Element, t: Element)
    requires InclusiveIP(t) && InclusiveRanges(t)
    requires LessPermissive(s, t)
    ensures Included(s, t)
  {
    forall a | Denotes(s, a) ensures Bounded(a, t) {
      DenotesSimple(s, a);
      SimpleLEReflexive(a);
      BoundedIsBelow(a, s, a);
      StarFreeIsSetFree(a);
      Transitive(a, s, t);
      QueryExact(a, t);
    }
  }

  // ------------------------------------------------------------ completeness

  /** Atoms, lists, wildcards, and prefixes and suffixes that are not empty. */
  predicate Plain(e: Element)
  {
    match e
    case Atom(_) => true
    case List(_, es) => forall i :: 0 <= i < |es| ==> Plain(es[i])
    case Wildcard => true
    case Prefix(p) => p != []
    case Suffix(p) => p != []
    case _ => false
  }

  lemma {:induction false} PlainIsInclusive(e: Element)
    requires Plain(e)
    ensures InclusiveIP(e) && InclusiveRanges(e)
  {
    if e.List? {
      forall i | 0 <= i < |e.elements| {
        PlainIsInclusive(e.elements[i]);
      }
    }
  }

  /** One simple S-expression the element stands for. */
  ghost function Sample(e: Element): Element
  {
    match e
    case List(tag, es) => List(tag, seq(|es|, i requires 0 <= i < |es| => Sample(es[i])))
    case Prefix(p) => Atom(p)
    case Suffix(p) => Atom(p)
    case Atom(v) => e
    case _ => Atom([])
  }

  lemma {:induction false} SampleDenoted(e: Element)
    requires Plain(e)
    ensures Denotes(e, Sample(e))
  {
    match e
    case List(_, es) =>
      forall i | 0 <= i < |es| {
        SampleDenoted(es[i]);
      }
    case Suffix(p) => assert p == [] + p;
    case _ =>
  }

  function OtherThan(c: byte): (x: byte)
    ensures x != c
  {
    if c == 0 then 1 else 0
  }

  /** A string with prefix p that t does not accept. */
  lemma PrefixEscapes(p: Bytes, t: Element) returns (v: Bytes)
    requires Plain(t) && !LessPermissive(Prefix(p), t)
    ensures p <= v && !LessPermissive(Atom(v), t)
  {
    v := p;
    if t.Atom? && t.value == p {
      v := p + [0];
    } else if t.Suffix? {
      v := p + [OtherThan(t.suffix[|t.suffix| - 1])];
      assert v[|v| - 1] != t.suffix[|t.suffix| - 1];
    } else if t.Prefix? && |p| < |t.prefix| {
      v := p + [OtherThan(t.prefix[|p|])];
      assert v[|p|] != t.prefix[|p|];
    }
  }

  /** A string with suffix p that t does not accept. */
  lemma SuffixEscapes(p: Bytes, t: Element) returns (v: Bytes)
    requires Plain(t) && !LessPermissive(Suffix(p), t)
    ensures (exists front :: v == front + p) && !LessPermissive(Atom(v), t)
  {
    var front: Bytes := [];
    if t.Atom? && t.value == p {
      front := [0];
    } else if t.Prefix? {
      front := [OtherThan(t.prefix[0])];
    } else if t.Suffix? && |p| < |t.suffix| {
      front := [OtherThan(t.suffix[|t.suffix| - |p| - 1])];
    }
    v := front + p;
    assert t.Prefix? ==> v[0] != t.prefix[0];
  }

  /** A refusal of the code is witnessed by a simple S-expression of s outside t. */
  lemma {:induction false} Distinguish(s: Element, t: Element) returns (a: Element)
    requires Plain(s) && Plain(t) && !LessPermissive(s, t)
    ensures Denotes(s, a) && !LessPermissive(a, t)
  {
    SampleDenoted(s);
    match s
    case Atom(_) => a := s;
    case Wildcard => a := if t.List? then Atom([]) else List([], []);
    case Prefix(p) =>
      var v := PrefixEscapes(p, t);
      a := Atom(v);
    case Suffix(p) =>
      var v := SuffixEscapes(p, t);
      a := Atom(v);
    case List(tag, es) =>
      a := Sample(s);
      if t.List? && t.tag == tag && |t.elements| <= |es| {
        assert !CompareLists(s, t);
        var i :| 0 <= i < |t.elements| && !LessPermissive(es[i], t.elements[i]);
        var ai := Distinguish(es[i], t.elements[i]);
        var as' := a.elements[i := ai];
        a := List(tag, as');
        assert as'[i] == ai;
        assert !CompareLists(a, t);
      }
  }

  /** On plain elements the code decides exactly the specification's relation. */
  lemma Exact(s: Element, t: Element)
    requires Plain(s) && Plain(t)
    ensures LessPermissive(s, t) <==> Included(s, t)
  {
    PlainIsInclusive(s);
    PlainIsInclusive(t);
    if LessPermissive(s, t) {
      Sound(s, t);
    } else {
      var a := Distinguish(s, t);
      DenotesSimple(s, a);
      QueryExact(a, t);
    }
  }

  /** The same in terms of queries: s <= t exactly when t authorizes every simple
      query that s authorizes. */
  lemma ExactForQueries(s: Element, t: Element)
    requires Plain(s) && Plain(t)
    ensures LessPermissive(s, t) <==> forall g :: StarFree(g) && LessPermissive(g, s) ==> LessPermissive(g, t)
  {
    PlainIsInclusive(s);
    PlainIsInclusive(t);
    if LessPermissive(s, t) {
      forall g | StarFree(g) && LessPermissive(g, s) ensures LessPermissive(g, t) {
        StarFreeIsSetFree(g);
        Transitive(g, s, t);
      }
    } else {
      var a := Distinguish(s, t);
      DenotesSimple(s, a);
      SimpleLEReflexive(a);
      BoundedIsBelow(a, s, a);
    }
  }

  // ------------------------------------------- where the code is not complete

  /** An empty prefix stands for every string, which the code does not see from a
      suffix: inclusion holds exactly for the empty prefix, the code's answer never. */
  lemma SuffixInPrefix(q: Bytes, p: Bytes)
    ensures Included(Suffix(q), Prefix(p)) <==> p == []
    ensures !LessPermissive(Suffix(q), Prefix(p))
  {
    if p == [] {
      forall a | Denotes(Suffix(q), a) ensures Bounded(a, Prefix(p)) {
        assert Denotes(Prefix(p), a) && SimpleLE(a, a);
      }
    } else {
      var v := SuffixEscapes(q, Prefix(p));
      assert Denotes(Suffix(q), Atom(v));
      assert !Bounded(Atom(v), Prefix(p)) by { QueryExact(Atom(v), Prefix(p)); }
    }
  }

  /** A set on the left ignores its members as soon as the right element is a star
      form. From a set of set-free members a chain s <= t <= u therefore closes exactly
      when u is the wildcard or no star form, whatever sets u and t hold. */
  lemma SetChainExactly(s: Element, t: Element, u: Element)
    requires s.Set? && forall i :: 0 <= i < |s.members| ==> SetFree(s.members[i])
    requires InclusiveRanges(u)
    requires LessPermissive(s, t) && LessPermissive(t, u)
    ensures LessPermissive(s, u) <==> u.Wildcard? || !u.IsStarForm()
  {
    if !u.IsStarForm() {
      forall i | 0 <= i < |s.members| ensures LessPermissive(s.members[i], u) {
        Transitive(s.members[i], t, u);
      }
    }
  }

  /** Nothing on the left is a set where the right has a star form other than the
      wildcard. */
  predicate Clear(s: Element, u: Element)
    decreases s
  {
    if u.Wildcard? then true
    else
      match s
      case Set(ms) => !u.IsStarForm() && forall i :: 0 <= i < |ms| ==> Clear(ms[i], u)
      case List(_, es) => u.List? ==> forall i :: 0 <= i < |es| && i < |u.elements| ==> Clear(es[i], u.elements[i])
      case _ => true
  }

  lemma {:induction false} BelowIsClear(s: Element, u: Element)
    requires SetFree(u) && LessPermissive(s, u)
    ensures Clear(s, u)
    decreases s
  {
    match s
    case Set(ms) =>
      if !u.IsStarForm() {
        forall i | 0 <= i < |ms| {
          BelowIsClear(ms[i], u);
        }
      }
    case List(_, es) =>
      if u.List? {
        assert CompareLists(s, u);
        forall i | 0 <= i < |es| && i < |u.elements| {
          BelowIsClear(es[i], u.elements[i]);
        }
      }
    case _ =>
  }

  lemma {:induction false} ClearChain(s: Element, t: Element, u: Element)
    requires InclusiveRanges(u) && SetFree(u) && Clear(s, u)
    requires LessPermissive(s, t) && LessPermissive(t, u)
    ensures LessPermissive(s, u)
    decreases s, t, u
  {
    if u.Wildcard? {
    } else if s.Set? {
      forall i | 0 <= i < |s.members| {
        ClearChain(s.members[i], t, u);
      }
    } else if s.List? && t.Set? {
      var i := SetMemberAbove(s, t);
      ClearChain(s, t.members[i], u);
    } else if s.List? && t.List? && u.List? {
      assert CompareLists(s, t) && CompareLists(t, u);
      forall i | 0 <= i < |u.elements| ensures LessPermissive(s.elements[i], u.elements[i]) {
        ClearChain(s.elements[i], t.elements[i], u.elements[i]);
      }
    } else if !s.List? {
      Transitive(s, t, u);
    }
  }

  /** Below a set-free upper end, for every left end: a chain closes exactly when the left
      end is clear of it. Sets break chains wherever they stand on the left. */
  lemma ChainClosesExactly(s: Element, t: Element, u: Element)
    requires InclusiveRanges(u) && SetFree(u)
    requires LessPermissive(s, t) && LessPermissive(t, u)
    ensures LessPermissive(s, u) <==> Clear(s, u)
  {
    if LessPermissive(s, u) {
      BelowIsClear(s, u);
    } else if Clear(s, u) {
      ClearChain(s, t, u);
    }
  }

  /** A list that holds a set breaks a chain, too. */
  lemma NestedSetBreaksChain(tag: Bytes, v: Bytes)
    ensures var s, t, u := List(tag, [Set([Atom(v)])]), List(tag, [Atom(v)]), List(tag, [Prefix([])]);
            LessPermissive(s, t) && LessPermissive(t, u) && !LessPermissive(s, u)
  {
    var s, t, u := List(tag, [Set([Atom(v)])]), List(tag, [Atom(v)]), List(tag, [Prefix([])]);
    assert LessPermissive(s.elements[0], t.elements[0]) && LessPermissive(t.elements[0], u.elements[0]);
    assert LessPermissive(s, t) == CompareLists(s, t) && LessPermissive(t, u) == CompareLists(t, u);
    assert !LessPermissive(s.elements[0], u.elements[0]) && LessPermissive(s, u) == CompareLists(s, u);
  }

  /** A set of plain members below a plain element that is no star form: the code decides
      the specification's relation. */
  lemma SetExact(ms: seq<Element>, t: Element)
    requires (forall i :: 0 <= i < |ms| ==> Plain(ms[i])) && Plain(t) && !t.IsStarForm()
    ensures LessPermissive(Set(ms), t) <==> Included(Set(ms), t)
  {
    forall i | 0 <= i < |ms| ensures LessPermissive(ms[i], t) <==> Included(ms[i], t) {
      Exact(ms[i], t);
    }
    if Included(Set(ms), t) {
      forall i | 0 <= i < |ms| ensures Included(ms[i], t) {
        forall a | Denotes(ms[i], a) ensures Bounded(a, t) {
          assert Denotes(Set(ms), a);
        }
      }
    }
  }

  /** Below a set the code finds no star form at all. */
  lemma NoStarFormBelowSet(s: Element, ms: seq<Element>)
    requires s.IsStarForm()
    ensures !LessPermissive(s, Set(ms))
  {
  }
}

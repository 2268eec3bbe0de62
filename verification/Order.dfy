/** Order theory of LessPermissive: where it is reflexive, antisymmetric and
    transitive, and where the code departs from that. */
module Order {

  import opened Wrappers
  import opened ByteStrings
  import opened Elements
  import opened StarForms
  import opened Compare

  // ------------------------------------------------------------- reflexivity

  /** No set occurs in the element. */
  predicate SetFree(e: Element)
  {
    match e
    case Set(_) => false
    case List(_, es) => forall i :: 0 <= i < |es| ==> SetFree(es[i])
    case _ => true
  }

  lemma {:induction false} StarFreeIsSetFree(e: Element)
    requires StarFree(e)
    ensures SetFree(e)
  {
    if e.List? {
      forall i | 0 <= i < |e.elements| {
        StarFreeIsSetFree(e.elements[i]);
      }
    }
  }

  /** An element is below itself exactly when no set occurs in it. */
  lemma {:induction false} ReflexiveExactly(s: Element)
    ensures LessPermissive(s, s) <==> SetFree(s)
  {
    match s
    case List(_, es) =>
      forall i | 0 <= i < |es| {
        ReflexiveExactly(es[i]);
      }
    case Range(_, lo, hi) =>
      if lo.Some? { AtMostTotal(lo.value.value, lo.value.value); }
      if hi.Some? { AtMostTotal(hi.value.value, hi.value.value); }
    case _ =>
  }

  // ------------------------------------------------------------ antisymmetry

  function EraseOp(b: Option<Bound>): Option<Bound>
  {
    match b
    case None => None
    case Some(Bound(_, v)) => Some(Bound(GE, v))
  }

  /** The element with every range operator of its own lists forgotten. */
  function EraseOps(e: Element): Element
  {
    match e
    case List(tag, es) => List(tag, seq(|es|, i requires 0 <= i < |es| => EraseOps(es[i])))
    case Range(t, lo, hi) => Range(t, EraseOp(lo), EraseOp(hi))
    case _ => e
  }

  lemma MutualRanges(s: Element, t: Element)
    requires s.Range? && t.Range?
    ensures CompareRanges(s, t) && CompareRanges(t, s) <==> EraseOps(s) == EraseOps(t)
  {
    if s.lower.Some? && t.lower.Some? { AtMostTotal(s.lower.value.value, t.lower.value.value); }
    if s.upper.Some? && t.upper.Some? { AtMostTotal(s.upper.value.value, t.upper.value.value); }
  }

  /** Set-free elements are below each other exactly when they differ in nothing
      but the operators of range bounds. */
  lemma {:induction false} AntisymmetricExactly(s: Element, t: Element)
    requires SetFree(s) && SetFree(t)
    ensures LessPermissive(s, t) && LessPermissive(t, s) <==> EraseOps(s) == EraseOps(t)
  {
    if s.List? && t.List? {
      forall i | 0 <= i < |s.elements| && i < |t.elements| {
        AntisymmetricExactly(s.elements[i], t.elements[i]);
      }
      assert LessPermissive(s, t) == CompareLists(s, t) && LessPermissive(t, s) == CompareLists(t, s);
      assert |EraseOps(s).elements| == |s.elements| && |EraseOps(t).elements| == |t.elements|;
      if EraseOps(s) == EraseOps(t) {
        forall i | 0 <= i < |s.elements|
          ensures LessPermissive(s.elements[i], t.elements[i]) && LessPermissive(t.elements[i], s.elements[i])
        {
          assert EraseOps(s).elements[i] == EraseOps(t).elements[i];
        }
      }
    } else if s.Range? && t.Range? {
      MutualRanges(s, t);
    }
  }

  /** Every range bound in the element's lists uses the canonical operators. */
  predicate CanonicalOps(e: Element)
  {
    match e
    case List(_, es) => forall i :: 0 <= i < |es| ==> CanonicalOps(es[i])
    case Range(_, lo, hi) => (lo.Some? ==> lo.value.op == GE) && (hi.Some? ==> hi.value.op == LE)
    case _ => true
  }

  lemma {:induction false} EraseOpsInjective(s: Element, t: Element)
    requires CanonicalOps(s) && CanonicalOps(t) && EraseOps(s) == EraseOps(t)
    ensures s == t
  {
    if s.List? {
      forall i | 0 <= i < |s.elements| ensures s.elements[i] == t.elements[i] {
        assert EraseOps(s).elements[i] == EraseOps(t).elements[i];
        EraseOpsInjective(s.elements[i], t.elements[i]);
      }
      assert s.elements == t.elements;
    }
  }

  // ------------------------------------------------------------ transitivity

  predicate Inclusive(t: RangeType, lower: Option<Bound>, upper: Option<Bound>)
  {
    && (t == Date ==> lower.None? && upper.None?)
    && (t.IPv4? || t.IPv6? || ((lower.Some? ==> lower.value.op != GT) && (upper.Some? ==> upper.value.op != LT)))
  }

  /** The ranges anywhere in the element neither exclude a bound nor bound a date.
      IP ranges qualify with any operator, because matchIP reads none. */
  predicate InclusiveRanges(e: Element)
  {
    match e
    case List(_, es) => forall i :: 0 <= i < |es| ==> InclusiveRanges(es[i])
    case Set(ms) => forall i :: 0 <= i < |ms| ==> InclusiveRanges(ms[i])
    case Range(t, lo, hi) => Inclusive(t, lo, hi)
    case _ => true
  }

  lemma LowerBoundChain(u: Option<Bound>, t: Option<Bound>, v: Bytes)
    requires u.Some? && t.Some? && AtMost(u.value.value, t.value.value) && AtMost(t.value.value, v)
    ensures AtMost(u.value.value, v)
  {
    AtMostTransitive(u.value.value, t.value.value, v);
  }

  lemma UpperBoundChain(u: Option<Bound>, t: Option<Bound>, v: Bytes)
    requires u.Some? && t.Some? && AtMost(t.value.value, u.value.value) && AtMost(v, t.value.value)
    ensures AtMost(v, u.value.value)
  {
    AtMostTransitive(v, t.value.value, u.value.value);
  }

  /** A value in a range is in every inclusive range that contains it. */
  lemma RangeMonotone(t: Element, u: Element, v: Bytes)
    requires t.Range? && u.Range? && CompareRanges(t, u)
    requires Inclusive(u.rangeType, u.lower, u.upper)
    requires MatchRange(t, v)
    ensures MatchRange(u, v)
  {
    if t.rangeType != Date {
      if u.lower.Some? { LowerBoundChain(u.lower, t.lower, v); }
      if u.upper.Some? { UpperBoundChain(u.upper, t.upper, v); }
    }
  }

  /** compareRanges reads no operator: what it calls contained is contained, in byte
      order, exactly when no bound that t excludes is a value s admits. IP ranges have no
      excluded bounds, as matchIP reads no operator either. */
  lemma ContainedRangesExactly(s: Element, t: Element)
    requires s.Range? && t.Range? && CompareRanges(s, t)
    requires t.rangeType != Date
    ensures (forall v :: MatchRange(s, v) ==> MatchRange(t, v)) <==>
            t.rangeType.IPv4? || t.rangeType.IPv6? ||
            (!(t.lower.Some? && t.lower.value.op == GT && MatchRange(s, t.lower.value.value)) &&
             !(t.upper.Some? && t.upper.value.op == LT && MatchRange(s, t.upper.value.value)))
  {
    forall v | MatchRange(s, v)
      ensures t.lower.Some? ==> AtMost(t.lower.value.value, v)
      ensures t.upper.Some? ==> AtMost(v, t.upper.value.value)
    {
      if t.lower.Some? { LowerBoundChain(t.lower, s.lower, v); }
      if t.upper.Some? { UpperBoundChain(t.upper, s.upper, v); }
    }
    if t.rangeType in {Alpha, Numeric, Time} {
      if t.lower.Some? { assert t.lower.value.op == GT ==> !MatchRange(t, t.lower.value.value); }
      if t.upper.Some? { assert t.upper.value.op == LT ==> !MatchRange(t, t.upper.value.value); }
    }
  }

  lemma RangesTransitive(s: Element, t: Element, u: Element)
    requires s.Range? && t.Range? && u.Range? && CompareRanges(s, t) && CompareRanges(t, u)
    ensures CompareRanges(s, u)
  {
    if u.lower.Some? { LowerBoundChain(u.lower, t.lower, s.lower.value.value); }
    if u.upper.Some? { UpperBoundChain(u.upper, t.upper, s.upper.value.value); }
  }

  /** Chains of star forms stay within one kind. */
  lemma StarFormsTransitive(s: Element, t: Element, u: Element)
    requires s.IsStarForm() && t.IsStarForm() && u.IsStarForm()
    requires CompareStarForms(s, t) && CompareStarForms(t, u)
    ensures CompareStarForms(s, u)
  {
    if s.Range? && t.Range? && u.Range? {
      RangesTransitive(s, t, u);
    }
  }

  /** What an atom matches stays matched further up. */
  lemma AtomBelowStarForm(s: Element, t: Element, u: Element)
    requires s.Atom? && t.IsStarForm() && !t.Set? && LessPermissive(s, t) && LessPermissive(t, u)
    requires InclusiveRanges(u)
    ensures LessPermissive(s, u)
  {
    if t.Range? && u.Range? {
      RangeMonotone(t, u, s.value);
    }
  }

  lemma SetMemberAbove(s: Element, t: Element) returns (i: nat)
    requires !s.IsStarForm() && t.Set? && LessPermissive(s, t)
    ensures i < |t.members| && LessPermissive(s, t.members[i])
  {
    if s.Atom? && Match(t, s) {
      i :| i < |t.members| && ElementsEqual(s, t.members[i]);
    } else {
      i :| i < |t.members| && LessPermissive(s, t.members[i]);
    }
  }

  /** Transitivity, for a set-free left element. The upper element may be anything
      when the middle one is simple; otherwise its ranges must be inclusive. */
  lemma {:induction false} Transitive(s: Element, t: Element, u: Element)
    requires SetFree(s)
    requires InclusiveRanges(u) || StarFree(t)
    requires LessPermissive(s, t) && LessPermissive(t, u)
    ensures LessPermissive(s, u)
    decreases s, t, u
  {
    if u.Wildcard? || t.Wildcard? {
    } else if s.IsStarForm() {
      StarFormsTransitive(s, t, u);
    } else if t.Set? {
      var i := SetMemberAbove(s, t);
      Transitive(s, t.members[i], u);
    } else if t.IsStarForm() {
      AtomBelowStarForm(s, t, u);
    } else if u.Set? {
      var i := SetMemberAbove(t, u);
      Transitive(s, t, u.members[i]);
    } else if s.List? && u.List? {
      forall i | 0 <= i < |u.elements| ensures LessPermissive(s.elements[i], u.elements[i]) {
        Transitive(s.elements[i], t.elements[i], u.elements[i]);
      }
    }
  }
}

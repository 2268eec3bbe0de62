/** The star forms' own Match methods. */
module StarForms {

  import opened Wrappers
  import opened ByteStrings
  import opened Elements

  /** time.Parse with layout RFC 3339: a library call, so any reading of texts as
      instants will do. */
  const ParseDate: Bytes -> Option<int>

  /** Structural equality of atoms and lists; false as soon as a star form is met. */
  predicate ElementsEqual(a: Element, b: Element)
  {
    if a.Atom? && b.Atom? then a.value == b.value
    else if a.List? && b.List? then
      && a.tag == b.tag
      && |a.elements| == |b.elements|
      && forall i :: 0 <= i < |a.elements| ==> ElementsEqual(a.elements[i], b.elements[i])
    else false
  }

  /** Bound checks of matchNumeric and matchAlpha, which are the same. */
  predicate MatchText(lower: Option<Bound>, upper: Option<Bound>, v: Bytes)
  {
    if lower.Some? && Less(v, lower.value.value) then false
    else if lower.Some? && lower.value.op == GT && v == lower.value.value then false
    else if upper.Some? && Less(upper.value.value, v) then false
    else if upper.Some? && upper.value.op == LT && v == upper.value.value then false
    else true
  }

  predicate MatchDate(lower: Option<Bound>, upper: Option<Bound>, v: Bytes)
  {
    match ParseDate(v)
    case None => false
    case Some(t) =>
      && (lower.None? ||
          match ParseDate(lower.value.value)
          case None => false
          case Some(lo) => lo <= t && !(lower.value.op == GT && t == lo))
      && (upper.None? ||
          match ParseDate(upper.value.value)
          case None => false
          case Some(hi) => t <= hi && !(upper.value.op == LT && t == hi))
  }

  /** matchIP looks at the bounds' values only. */
  predicate MatchIP(lower: Option<Bound>, upper: Option<Bound>, v: Bytes)
  {
    if lower.Some? && Less(v, lower.value.value) then false
    else if upper.Some? && Less(upper.value.value, v) then false
    else true
  }

  predicate MatchRange(r: Element, v: Bytes)
    requires r.Range?
  {
    match r.rangeType
    case Numeric => MatchText(r.lower, r.upper, v)
    case Alpha => MatchText(r.lower, r.upper, v)
    case Date => MatchDate(r.lower, r.upper, v)
    case Time => MatchText(r.lower, r.upper, v)
    case IPv4 => MatchIP(r.lower, r.upper, v)
    case IPv6 => MatchIP(r.lower, r.upper, v)
    case Undeclared(_) => false
  }

  predicate Match(t: Element, e: Element)
    requires t.IsStarForm()
  {
    match t
    case Wildcard => true
    case Set(ms) => exists i :: 0 <= i < |ms| && ElementsEqual(e, ms[i])
    case Range(_, _, _) => e.Atom? && MatchRange(t, e.value)
    case Prefix(p) => e.Atom? && HasPrefix(e.value, p)
    case Suffix(p) => e.Atom? && HasSuffix(e.value, p)
  }

  /** elementsEqual is equality of simple elements and fails on everything else. */
  lemma {:induction false} ElementsEqualExact(a: Element, b: Element)
    ensures ElementsEqual(a, b) <==> a == b && StarFree(a)
  {
    if a.List? && b.List? && a.tag == b.tag && |a.elements| == |b.elements| {
      forall i | 0 <= i < |a.elements| {
        ElementsEqualExact(a.elements[i], b.elements[i]);
      }
      if ElementsEqual(a, b) {
        assert a.elements == b.elements;
      }
    }
  }
}

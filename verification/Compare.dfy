/** The less-permissive relation, as the program computes it. */
module Compare {

  import opened ByteStrings
  import opened Elements
  import opened StarForms

  predicate LessPermissive(s: Element, t: Element)
    decreases s, t, 1
  {
    if t.Wildcard? then true
    else if s.Atom? && t.Atom? then s.value == t.value
    else if s.Atom? && t.IsStarForm() && Match(t, s) then true
    else if s.IsStarForm() && t.IsStarForm() then CompareStarForms(s, t)
    else if s.List? && t.List? then CompareLists(s, t)
    else if s.Set? then forall i :: 0 <= i < |s.members| ==> LessPermissive(s.members[i], t)
    else if t.Set? then exists i :: 0 <= i < |t.members| && LessPermissive(s, t.members[i])
    else false
  }

  predicate CompareLists(s: Element, t: Element)
    requires s.List? && t.List?
    decreases s, t, 0
  {
    && s.tag == t.tag
    && |t.elements| <= |s.elements|
    && forall i :: 0 <= i < |t.elements| ==> LessPermissive(s.elements[i], t.elements[i])
  }

  /** Two star forms compare only within one kind; a set is in no other form. */
  predicate CompareStarForms(s: Element, t: Element)
    requires s.IsStarForm() && t.IsStarForm()
  {
    if t.Wildcard? then true
    else if s.Wildcard? then false
    else if s.Range? && t.Range? then CompareRanges(s, t)
    else if s.Prefix? && t.Prefix? then HasPrefix(s.prefix, t.prefix)
    else if s.Suffix? && t.Suffix? then HasSuffix(s.suffix, t.suffix)
    else false
  }

  /** Containment of ranges: same type, and the bounds' values in byte order. The
      bounds' operators are not looked at. */
  predicate CompareRanges(s: Element, t: Element)
    requires s.Range? && t.Range?
  {
    if s.rangeType != t.rangeType then false
    else if t.lower.Some? && s.lower.Some? && Less(s.lower.value.value, t.lower.value.value) then false
    else if t.lower.Some? && s.lower.None? then false
    else if t.upper.Some? && s.upper.Some? && Less(t.upper.value.value, s.upper.value.value) then false
    else if t.upper.Some? && s.upper.None? then false
    else true
  }
}

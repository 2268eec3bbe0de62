/** AuthZen evaluation requests as queries: resource type as the tag, then id, resource
    properties, action, subject and, unless empty, context. */
module Authzen {

  import opened Wrappers
  import opened ByteStrings
  import opened Elements
  import opened Compare
  import opened Order
  import opened Engines
  import opened EngineProofs

  /** A decoded JSON value; an object's members in the order a range loop meets them. */
  datatype Json =
    | Text(text: Bytes)
    | Bool(b: bool)
    | Float(x: real)
    | Int(n: int)
    | Array(items: seq<Json>)
    | Object(members: seq<Property>)
    | Other(name: Bytes)

  datatype Property = Property(key: Bytes, value: Json)

  /** fmt's %g and json.Marshal: library calls, so any texts will do. */
  const FormatFloat: real -> Bytes
  const Marshal: Json -> Option<Bytes>

  const WORD_ID: Bytes := [105, 100]
  const WORD_TYPE: Bytes := [116, 121, 112, 101]
  const WORD_ACTION: Bytes := [97, 99, 116, 105, 111, 110]
  const WORD_SUBJECT: Bytes := [115, 117, 98, 106, 101, 99, 116]
  const WORD_CONTEXT: Bytes := [99, 111, 110, 116, 101, 120, 116]

  datatype EvaluationRequest = EvaluationRequest(
    subjectType: Bytes, subjectID: Bytes, subjectProperties: seq<Property>,
    resourceType: Bytes, resourceID: Bytes, resourceProperties: seq<Property>,
    actionName: Bytes, actionProperties: seq<Property>,
    context: seq<Property>)

  // ------------------------------------------------------------------ conversion

  function BoolText(b: bool): Bytes
  {
    if b then [116, 114, 117, 101] else [102, 97, 108, 115, 101]
  }

  function IntText(n: int): Bytes
  {
    if n < 0 then [MINUS] + Decimal(-n) else Decimal(n)
  }

  /** valueToString. */
  function ValueText(v: Json): Outcome<Bytes>
  {
    match v
    case Text(s) => Done(s)
    case Bool(b) => Done(BoolText(b))
    case Float(x) => Done(FormatFloat(x))
    case Int(n) => Done(IntText(n))
    case _ => match Marshal(v) case Some(s) => Done(s) case None => Failed
  }

  function ItemAtoms(items: seq<Json>): Outcome<seq<Element>>
  {
    if items == [] then Done([])
    else
      match ValueText(items[0])
      case Done(s) => Prepend([Atom(s)], ItemAtoms(items[1..]))
      case bad => Failed
  }

  /** propertyToSExp. */
  function Converted(key: Bytes, v: Json): Outcome<Element>
    decreases v, 0
  {
    match v
    case Array(items) => Tagged(key, ItemAtoms(items))
    case Object(members) => Tagged(key, ConvertedAll(members))
    case _ => match ValueText(v) case Done(s) => Done(List(key, [Atom(s)])) case _ => Failed
  }

  function Tagged(tag: Bytes, es: Outcome<seq<Element>>): Outcome<Element>
  {
    match es
    case Done(elements) => Done(List(tag, elements))
    case _ => Failed
  }

  function ConvertedAll(ps: seq<Property>): Outcome<seq<Element>>
    decreases ps, 1
  {
    if ps == [] then Done([])
    else
      match Converted(ps[0].key, ps[0].value)
      case Done(e) => Prepend([e], ConvertedAll(ps[1..]))
      case _ => Failed
  }

  function IfPresent(tag: Bytes, value: Bytes): seq<Element>
  {
    if value == [] then [] else [List(tag, [Atom(value)])]
  }

  /** The elements behind the resource type, section by section. */
  function Sections(r: EvaluationRequest): Outcome<seq<Element>>
  {
    match ConvertedAll(r.resourceProperties)
    case Done(resource) =>
      (match ConvertedAll(r.actionProperties)
       case Done(action) =>
         (match ConvertedAll(r.subjectProperties)
          case Done(subject) =>
            var fixed :=
              IfPresent(WORD_ID, r.resourceID) + resource +
              [List(WORD_ACTION, [Atom(r.actionName)] + action)] +
              [List(WORD_SUBJECT, IfPresent(WORD_TYPE, r.subjectType) + IfPresent(WORD_ID, r.subjectID) + subject)];
            if r.context == [] then Done(fixed)
            else
              (match ConvertedAll(r.context)
               case Done(context) => Done(fixed + [List(WORD_CONTEXT, context)])
               case _ => Failed)
          case _ => Failed)
       case _ => Failed)
    case _ => Failed
  }

  /** ToSExpression. */
  function AsQuery(r: EvaluationRequest): Outcome<Element>
  {
    Tagged(r.resourceType, Sections(r))
  }

  // --------------------------------------------------------------- the loops of it

  /** A range loop over properties that appends what each converts to. */
  method AppendProperties(start: seq<Element>, ps: seq<Property>) returns (r: Outcome<seq<Element>>)
    ensures r == Prepend(start, ConvertedAll(ps))
    decreases ps, 1
  {
    var elements := start;
    for i := 0 to |ps|
      invariant Prepend(start, ConvertedAll(ps)) == Prepend(elements, ConvertedAll(ps[i..]))
    {
      assert ps[i..][1..] == ps[i + 1..];
      var e := PropertyToSExp(ps[i].key, ps[i].value);
      if !e.Done? {
        return Failed;
      }
      PrependTwice(elements, [e.value], ConvertedAll(ps[i + 1..]));
      elements := elements + [e.value];
    }
    assert elements + [] == elements;
    r := Done(elements);
  }

  method PropertyToSExp(key: Bytes, v: Json) returns (r: Outcome<Element>)
    ensures r == Converted(key, v)
    decreases v, 0
  {
    match v
    case Array(items) =>
      var elements: seq<Element> := [];
      PrependTwice([], [], ItemAtoms(items));
      for i := 0 to |items|
        invariant ItemAtoms(items) == Prepend(elements, ItemAtoms(items[i..]))
      {
        assert items[i..][1..] == items[i + 1..];
        var s := ValueText(items[i]);
        if !s.Done? {
          return Failed;
        }
        PrependTwice(elements, [Atom(s.value)], ItemAtoms(items[i + 1..]));
        elements := elements + [Atom(s.value)];
      }
      assert elements + [] == elements;
      r := Done(List(key, elements));
    case Object(members) =>
      var elements := AppendProperties([], members);
      PrependTwice([], [], ConvertedAll(members));
      r := Tagged(key, elements);
    case _ =>
      var s := ValueText(v);
      r := if s.Done? then Done(List(key, [Atom(s.value)])) else Failed;
  }

  method ToSExpression(r: EvaluationRequest) returns (q: Outcome<Element>)
    ensures q == AsQuery(r)
  {
    var elements := AppendProperties(IfPresent(WORD_ID, r.resourceID), r.resourceProperties);
    if !elements.Done? {
      return Failed;
    }
    var action := AppendProperties([Atom(r.actionName)], r.actionProperties);
    if !action.Done? {
      return Failed;
    }
    var subjectStart := IfPresent(WORD_TYPE, r.subjectType) + IfPresent(WORD_ID, r.subjectID);
    var subject := AppendProperties(subjectStart, r.subjectProperties);
    if !subject.Done? {
      return Failed;
    }
    var all := elements.value + [List(WORD_ACTION, action.value)] + [List(WORD_SUBJECT, subject.value)];
    if |r.context| > 0 {
      var context := AppendProperties([], r.context);
      PrependTwice([], [], ConvertedAll(r.context));
      if !context.Done? {
        return Failed;
      }
      all := all + [List(WORD_CONTEXT, context.value)];
    }
    q := Done(List(r.resourceType, all));
  }

  // ---------------------------------------------------------------- monotonicity

  /** The same value, with possibly more members at the end of its objects, at any
      depth, and more items at the end of its own arrays. */
  ghost predicate Richer(v: Json, w: Json)
    decreases w, 0
  {
    match (v, w)
    case (Array(xs), Array(ys)) => ys <= xs
    case (Object(xs), Object(ys)) => RicherAll(xs, ys)
    case _ => v == w
  }

  ghost predicate RicherAll(ps: seq<Property>, qs: seq<Property>)
    decreases qs, 1
  {
    qs == [] ||
    (ps != [] && ps[0].key == qs[0].key && Richer(ps[0].value, qs[0].value) && RicherAll(ps[1..], qs[1..]))
  }

  /** The same resource, action and subject, with richer properties and context. */
  ghost predicate RicherRequest(r: EvaluationRequest, s: EvaluationRequest)
  {
    && r == s.(actionProperties := r.actionProperties, subjectProperties := r.subjectProperties, context := r.context)
    && RicherAll(r.actionProperties, s.actionProperties)
    && RicherAll(r.subjectProperties, s.subjectProperties)
    && RicherAll(r.context, s.context)
  }

  /** Simple elements, each below its counterpart, and perhaps some more. */
  ghost predicate Below(xs: seq<Element>, ys: seq<Element>)
  {
    && |ys| <= |xs|
    && (forall i :: 0 <= i < |xs| ==> StarFree(xs[i]))
    && (forall i :: 0 <= i < |ys| ==> StarFree(ys[i]) && LessPermissive(xs[i], ys[i]))
  }

  lemma BelowList(tag: Bytes, xs: seq<Element>, ys: seq<Element>)
    requires Below(xs, ys)
    ensures StarFree(List(tag, xs)) && StarFree(List(tag, ys)) && LessPermissive(List(tag, xs), List(tag, ys))
  {
    assert CompareLists(List(tag, xs), List(tag, ys));
  }

  lemma BelowCons(x: Element, y: Element, xs: seq<Element>, ys: seq<Element>)
    requires StarFree(x) && StarFree(y) && LessPermissive(x, y) && Below(xs, ys)
    ensures Below([x] + xs, [y] + ys)
  {
  }

  /** In front of both sides the same simple elements may stand. */
  lemma BelowFront(front: seq<Element>, xs: seq<Element>, ys: seq<Element>)
    requires Below(xs, ys) && forall i :: 0 <= i < |front| ==> StarFree(front[i])
    ensures Below(front + xs, front + ys)
  {
    forall i | 0 <= i < |front + ys| ensures LessPermissive((front + xs)[i], (front + ys)[i]) {
      if i < |front| {
        StarFreeIsSetFree(front[i]);
        ReflexiveExactly(front[i]);
      }
    }
  }

  lemma {:induction false} ItemsBelow(xs: seq<Json>, ys: seq<Json>)
    requires ys <= xs && ItemAtoms(xs).Done?
    ensures ItemAtoms(ys).Done? && Below(ItemAtoms(xs).value, ItemAtoms(ys).value)
  {
    if xs != [] {
      if ys == [] {
        ItemsBelow(xs[1..], []);
      } else {
        ItemsBelow(xs[1..], ys[1..]);
        var a := Atom(ValueText(xs[0]).value);
        BelowCons(a, a, ItemAtoms(xs[1..]).value, ItemAtoms(ys[1..]).value);
      }
    }
  }

  /** If the richer property converts, so does the poorer, to something above. */
  lemma {:induction false} PropertyBelow(key: Bytes, v: Json, w: Json)
    requires Richer(v, w) && Converted(key, v).Done?
    ensures Converted(key, w).Done?
    ensures var e, f := Converted(key, v).value, Converted(key, w).value;
            StarFree(e) && StarFree(f) && LessPermissive(e, f)
    decreases v, 0
  {
    if v.Array? && w.Array? {
      ItemsBelow(v.items, w.items);
      BelowList(key, ItemAtoms(v.items).value, ItemAtoms(w.items).value);
    } else if v.Object? && w.Object? {
      PropertiesBelow(v.members, w.members);
      BelowList(key, ConvertedAll(v.members).value, ConvertedAll(w.members).value);
    } else {
      var atoms := [Atom(ValueText(v).value)];
      assert v == w && Converted(key, v) == Done(List(key, atoms));
      assert LessPermissive(atoms[0], atoms[0]);
      BelowList(key, atoms, atoms);
    }
  }

  lemma {:induction false} PropertiesBelow(ps: seq<Property>, qs: seq<Property>)
    requires RicherAll(ps, qs) && ConvertedAll(ps).Done?
    ensures ConvertedAll(qs).Done? && Below(ConvertedAll(ps).value, ConvertedAll(qs).value)
    decreases ps, 1
  {
    if ps != [] {
      var e := Converted(ps[0].key, ps[0].value).value;
      if qs == [] {
        PropertiesBelow(ps[1..], []);
        RicherReflexive(ps[0].value);
        PropertyBelow(ps[0].key, ps[0].value, ps[0].value);
      } else {
        PropertiesBelow(ps[1..], qs[1..]);
        PropertyBelow(ps[0].key, ps[0].value, qs[0].value);
        BelowCons(e, Converted(qs[0].key, qs[0].value).value, ConvertedAll(ps[1..]).value, ConvertedAll(qs[1..]).value);
      }
    }
  }

  lemma {:induction false} RicherReflexive(v: Json)
    ensures Richer(v, v)
    decreases v, 0
  {
    if v.Object? {
      RicherAllReflexive(v.members);
    }
  }

  lemma {:induction false} RicherAllReflexive(ps: seq<Property>)
    ensures RicherAll(ps, ps)
    decreases ps, 1
  {
    if ps != [] {
      RicherReflexive(ps[0].value);
      RicherAllReflexive(ps[1..]);
    }
  }

  /** A richer request that converts gives a query below the poorer request's query. */
  lemma RicherIsBelow(r: EvaluationRequest, s: EvaluationRequest)
    requires RicherRequest(r, s) && AsQuery(r).Done?
    ensures AsQuery(s).Done?
    ensures var p, q := AsQuery(r).value, AsQuery(s).value; StarFree(p) && StarFree(q) && LessPermissive(p, q)
  {
    RicherAllReflexive(r.resourceProperties);
    PropertiesBelow(r.resourceProperties, r.resourceProperties);
    PropertiesBelow(r.actionProperties, s.actionProperties);
    PropertiesBelow(r.subjectProperties, s.subjectProperties);
    if r.context != [] {
      PropertiesBelow(r.context, s.context);
    }
    SectionsBelow(r, s);
    BelowList(r.resourceType, Sections(r).value, Sections(s).value);
  }

  lemma SectionsBelow(r: EvaluationRequest, s: EvaluationRequest)
    requires RicherRequest(r, s) && Sections(r).Done? && Sections(s).Done?
    requires Below(ConvertedAll(r.resourceProperties).value, ConvertedAll(r.resourceProperties).value)
    requires Below(ConvertedAll(r.actionProperties).value, ConvertedAll(s.actionProperties).value)
    requires Below(ConvertedAll(r.subjectProperties).value, ConvertedAll(s.subjectProperties).value)
    requires r.context != [] ==> Below(ConvertedAll(r.context).value, ConvertedAll(s.context).value)
    ensures Below(Sections(r).value, Sections(s).value)
  {
    var name, who := [Atom(r.actionName)], IfPresent(WORD_TYPE, r.subjectType) + IfPresent(WORD_ID, r.subjectID);
    var (a, a') := (ConvertedAll(r.actionProperties).value, ConvertedAll(s.actionProperties).value);
    var (b, b') := (ConvertedAll(r.subjectProperties).value, ConvertedAll(s.subjectProperties).value);
    BelowFront(name, a, a');
    BelowList(WORD_ACTION, name + a, name + a');
    BelowFront(who, b, b');
    BelowList(WORD_SUBJECT, who + b, who + b');
    var front := IfPresent(WORD_ID, r.resourceID) + ConvertedAll(r.resourceProperties).value;
    var xs := [List(WORD_ACTION, name + a)] + [List(WORD_SUBJECT, who + b)];
    var ys := [List(WORD_ACTION, name + a')] + [List(WORD_SUBJECT, who + b')];
    BelowFront(front, xs, ys);
    if r.context != [] {
      BelowList(WORD_CONTEXT, ConvertedAll(r.context).value, ConvertedAll(s.context).value);
      assert Sections(r).value == front + xs + [List(WORD_CONTEXT, ConvertedAll(r.context).value)];
    } else {
      assert Sections(r).value == front + xs;
    }
    assert Sections(s).value[..|front + ys|] == front + ys;
  }

  /** So whatever rules an engine holds, allowing the poorer request allows the richer. */
  lemma RicherIsAllowed(s: State, richer: EvaluationRequest, poorer: EvaluationRequest)
    requires InOrder(s) && RicherRequest(richer, poorer) && AsQuery(richer).Done?
    ensures AsQuery(poorer).Done?
    ensures Answer(s, AsQuery(poorer).value) == Done(true) ==> Answer(s, AsQuery(richer).value) == Done(true)
  {
    RicherIsBelow(richer, poorer);
    if Answer(s, AsQuery(poorer).value) == Done(true) {
      DownwardClosed(s, AsQuery(richer).value, AsQuery(poorer).value);
    }
  }

  // ------------------------------------------------------------ what a query says

  /** The text of a value on its own: as it is, a truth value, a number, or JSON. */
  predicate IsText(s: Bytes, v: Json)
  {
    match v
    case Text(t) => s == t
    case Bool(b) => s == if b then Ascii("true") else Ascii("false")
    case Float(x) => s == FormatFloat(x)
    case Int(n) => if n < 0 then s == Ascii("-") + Decimal(-n) else s == Decimal(n)
    case _ => Marshal(v) == Some(s)
  }

  /** The element says that the key has the value: the key over the value's text, over the
      texts of an array's items, or over what an object's members say. */
  ghost predicate Says(e: Element, key: Bytes, v: Json)
    decreases v, 0
  {
    e.List? && e.tag == key &&
    match v
    case Array(items) =>
      |e.elements| == |items| &&
      forall i :: 0 <= i < |items| ==> e.elements[i].Atom? && IsText(e.elements[i].value, items[i])
    case Object(members) => SayAll(e.elements, members)
    case _ => |e.elements| == 1 && e.elements[0].Atom? && IsText(e.elements[0].value, v)
  }

  ghost predicate SayAll(es: seq<Element>, ps: seq<Property>)
    decreases ps, 1
  {
    |es| == |ps| && forall i :: 0 <= i < |ps| ==> Says(es[i], ps[i].key, ps[i].value)
  }

  lemma TextExactly(v: Json, s: Bytes)
    ensures ValueText(v) == Done(s) <==> IsText(s, v)
    ensures !ValueText(v).Crashed?
  {
    assert BoolText(true) == Ascii("true") && BoolText(false) == Ascii("false");
    assert [MINUS] == Ascii("-");
  }

  lemma {:induction false} ItemsExactly(items: seq<Json>, es: seq<Element>)
    ensures ItemAtoms(items) == Done(es) <==>
            |es| == |items| && forall i :: 0 <= i < |items| ==> es[i].Atom? && IsText(es[i].value, items[i])
  {
    if items != [] {
      if es != [] {
        assert forall i :: 0 <= i < |items| - 1 ==> items[1..][i] == items[i + 1];
        assert forall i :: 0 <= i < |es| - 1 ==> es[1..][i] == es[i + 1];
        ItemsExactly(items[1..], es[1..]);
        if es[0].Atom? {
          TextExactly(items[0], es[0].value);
        }
        assert es == [es[0]] + es[1..];
      }
      if ItemAtoms(items) == Done(es) {
        var more := ItemAtoms(items[1..]).value;
        assert es[0] == Atom(ValueText(items[0]).value) && es[1..] == more;
      }
    }
  }

  /** A property converts exactly to the element that says it, at any depth. */
  lemma {:induction false} PropertyExactly(key: Bytes, v: Json, e: Element)
    ensures Converted(key, v) == Done(e) <==> Says(e, key, v)
    decreases v, 0
  {
    match v
    case Array(items) =>
      if e.List? {
        ItemsExactly(items, e.elements);
      }
    case Object(members) =>
      if e.List? {
        PropertiesExactly(members, e.elements);
      }
    case _ =>
      if e.List? && |e.elements| == 1 && e.elements[0].Atom? {
        TextExactly(v, e.elements[0].value);
        assert e.elements == [e.elements[0]];
      }
      if Converted(key, v) == Done(e) {
        TextExactly(v, ValueText(v).value);
      }
  }

  lemma {:induction false} PropertiesExactly(ps: seq<Property>, es: seq<Element>)
    ensures ConvertedAll(ps) == Done(es) <==> SayAll(es, ps)
    decreases ps, 1
  {
    if ps != [] {
      if es != [] {
        PropertyExactly(ps[0].key, ps[0].value, es[0]);
        PropertiesExactly(ps[1..], es[1..]);
        SayAllCons(ps, es);
        assert es == [es[0]] + es[1..];
      }
      if ConvertedAll(ps) == Done(es) {
        assert es[0] == Converted(ps[0].key, ps[0].value).value && es[1..] == ConvertedAll(ps[1..]).value;
      }
    }
  }

  lemma SayAllCons(ps: seq<Property>, es: seq<Element>)
    requires ps != [] && es != []
    ensures SayAll(es, ps) <==> Says(es[0], ps[0].key, ps[0].value) && SayAll(es[1..], ps[1..])
  {
    assert forall i :: 0 <= i < |ps| - 1 ==> ps[1..][i] == ps[i + 1];
    assert forall i :: 0 <= i < |es| - 1 ==> es[1..][i] == es[i + 1];
  }

  /** The list of this tag: the given elements, and behind them what the properties say. */
  ghost predicate SaysList(e: Element, tag: Bytes, front: seq<Element>, ps: seq<Property>)
  {
    && e.List? && e.tag == tag && |front| <= |e.elements|
    && e.elements[..|front|] == front && SayAll(e.elements[|front|..], ps)
  }

  function Named(tag: Bytes, value: Bytes): Element
  {
    List(tag, [Atom(value)])
  }

  /** The request's query, place by place: the resource's type over its id, if it has one,
      its properties, the action, the subject and, unless it is empty, the context. */
  ghost predicate Describes(q: Element, r: EvaluationRequest)
  {
    var ids := if r.resourceID == [] then [] else [Named(Ascii("id"), r.resourceID)];
    var who :=
      (if r.subjectType == [] then [] else [Named(Ascii("type"), r.subjectType)]) +
      (if r.subjectID == [] then [] else [Named(Ascii("id"), r.subjectID)]);
    var n := |ids| + |r.resourceProperties|;
    && q.List? && q.tag == r.resourceType
    && |q.elements| == n + 2 + (if r.context == [] then 0 else 1)
    && q.elements[..|ids|] == ids
    && SayAll(q.elements[|ids|..n], r.resourceProperties)
    && SaysList(q.elements[n], Ascii("action"), [Atom(r.actionName)], r.actionProperties)
    && SaysList(q.elements[n + 1], Ascii("subject"), who, r.subjectProperties)
    && (r.context != [] ==> SaysList(q.elements[n + 2], Ascii("context"), [], r.context))
  }

  lemma SectionWords()
    ensures WORD_ID == Ascii("id") && WORD_TYPE == Ascii("type") && WORD_ACTION == Ascii("action")
    ensures WORD_SUBJECT == Ascii("subject") && WORD_CONTEXT == Ascii("context")
  {
  }

  /** A list of a front and converted properties says them. */
  lemma ListSays(tag: Bytes, front: seq<Element>, ps: seq<Property>)
    requires ConvertedAll(ps).Done?
    ensures SaysList(List(tag, front + ConvertedAll(ps).value), tag, front, ps)
  {
    var es := ConvertedAll(ps).value;
    assert (front + es)[..|front|] == front && (front + es)[|front|..] == es;
    PropertiesExactly(ps, es);
  }

  lemma SaysConverts(e: Element, tag: Bytes, front: seq<Element>, ps: seq<Property>)
    requires SaysList(e, tag, front, ps)
    ensures ConvertedAll(ps).Done? && e == List(tag, front + ConvertedAll(ps).value)
  {
    PropertiesExactly(ps, e.elements[|front|..]);
    assert e.elements == e.elements[..|front|] + e.elements[|front|..];
  }

  /** The places of a query's sections. */
  lemma Places(ids: seq<Element>, resource: seq<Element>, x: Element, y: Element, more: seq<Element>)
    ensures var all, n := ids + resource + [x] + [y] + more, |ids| + |resource|;
            && |all| == n + 2 + |more| && all[..|ids|] == ids && all[|ids|..n] == resource
            && all[n] == x && all[n + 1] == y && all[n + 2..] == more
  {
  }

  lemma FromPlaces(all: seq<Element>, a: nat, n: nat)
    requires a <= n && n + 2 <= |all|
    ensures all == all[..a] + all[a..n] + [all[n]] + [all[n + 1]] + all[n + 2..]
  {
  }

  function Who(r: EvaluationRequest): seq<Element>
  {
    IfPresent(WORD_TYPE, r.subjectType) + IfPresent(WORD_ID, r.subjectID)
  }

  function ContextList(r: EvaluationRequest): seq<Element>
    requires ConvertedAll(r.context).Done?
  {
    if r.context == [] then [] else [List(WORD_CONTEXT, ConvertedAll(r.context).value)]
  }

  predicate Converts(r: EvaluationRequest)
  {
    && ConvertedAll(r.resourceProperties).Done? && ConvertedAll(r.actionProperties).Done?
    && ConvertedAll(r.subjectProperties).Done? && ConvertedAll(r.context).Done?
  }

  lemma AsQueryIs(r: EvaluationRequest)
    ensures AsQuery(r).Done? <==> Converts(r)
    ensures Converts(r) ==>
            AsQuery(r).value == List(r.resourceType,
              IfPresent(WORD_ID, r.resourceID) + ConvertedAll(r.resourceProperties).value +
              [List(WORD_ACTION, [Atom(r.actionName)] + ConvertedAll(r.actionProperties).value)] +
              [List(WORD_SUBJECT, Who(r) + ConvertedAll(r.subjectProperties).value)] + ContextList(r))
  {
    if Converts(r) && r.context == [] {
      var fixed := Sections(r).value;
      assert fixed + [] == fixed;
    }
  }

  lemma QueryDescribes(r: EvaluationRequest)
    requires AsQuery(r).Done?
    ensures Describes(AsQuery(r).value, r)
  {
    SectionWords();
    AsQueryIs(r);
    var ids, resource := IfPresent(WORD_ID, r.resourceID), ConvertedAll(r.resourceProperties).value;
    var action := List(WORD_ACTION, [Atom(r.actionName)] + ConvertedAll(r.actionProperties).value);
    var subject := List(WORD_SUBJECT, Who(r) + ConvertedAll(r.subjectProperties).value);
    Places(ids, resource, action, subject, ContextList(r));
    PropertiesExactly(r.resourceProperties, resource);
    ListSays(WORD_ACTION, [Atom(r.actionName)], r.actionProperties);
    ListSays(WORD_SUBJECT, Who(r), r.subjectProperties);
    ContextSays(r);
    assert |resource| == |r.resourceProperties|;
    var q, n := AsQuery(r).value, |ids| + |resource|;
    assert r.context != [] ==> q.elements[n + 2] == q.elements[n + 2..][0];
  }

  lemma ContextSays(r: EvaluationRequest)
    requires ConvertedAll(r.context).Done?
    ensures r.context != [] ==> SaysList(ContextList(r)[0], WORD_CONTEXT, [], r.context)
  {
    var es := ConvertedAll(r.context).value;
    assert [] + es == es;
    ListSays(WORD_CONTEXT, [], r.context);
  }

  lemma DescribedConverts(q: Element, r: EvaluationRequest)
    requires Describes(q, r)
    ensures AsQuery(r) == Done(q)
  {
    SectionWords();
    var ids := IfPresent(WORD_ID, r.resourceID);
    var n := |ids| + |r.resourceProperties|;
    FromPlaces(q.elements, |ids|, n);
    PropertiesExactly(r.resourceProperties, q.elements[|ids|..n]);
    SaysConverts(q.elements[n], WORD_ACTION, [Atom(r.actionName)], r.actionProperties);
    SaysConverts(q.elements[n + 1], WORD_SUBJECT, Who(r), r.subjectProperties);
    ContextConverts(q.elements[n + 2..], r);
    AsQueryIs(r);
  }

  lemma ContextConverts(more: seq<Element>, r: EvaluationRequest)
    requires |more| == if r.context == [] then 0 else 1
    requires r.context != [] ==> SaysList(more[0], WORD_CONTEXT, [], r.context)
    ensures ConvertedAll(r.context).Done? && more == ContextList(r)
  {
    if r.context != [] {
      SaysConverts(more[0], WORD_CONTEXT, [], r.context);
      var es := ConvertedAll(r.context).value;
      assert [] + es == es;
    }
  }

  /** A request converts exactly to the query that describes it. */
  lemma RequestExactly(r: EvaluationRequest, q: Element)
    ensures AsQuery(r) == Done(q) <==> Describes(q, r)
  {
    if AsQuery(r) == Done(q) {
      QueryDescribes(r);
    }
    if Describes(q, r) {
      DescribedConverts(q, r);
    }
  }

  // ------------------------------------------------------------- a rule for it

  /** The rule that names a resource, an action and a subject. */
  function FiveFieldRule(T: Bytes, R: Bytes, A: Bytes, S: Bytes, I: Bytes): Element
  {
    List(T, [
      List(Ascii("id"), [Atom(R)]),
      List(Ascii("action"), [Atom(A)]),
      List(Ascii("subject"), [List(Ascii("type"), [Atom(S)]), List(Ascii("id"), [Atom(I)])])])
  }

  predicate Bare(r: EvaluationRequest)
  {
    r.resourceProperties == [] && r.actionProperties == [] && r.subjectProperties == [] && r.context == []
  }

  /** A request without properties is granted by such a rule, indexed or not, exactly when
      it has the rule's five fields, and the three that are left out when empty are not. */
  lemma BareRequestGranted(r: EvaluationRequest, indexed: bool, T: Bytes, R: Bytes, A: Bytes, S: Bytes, I: Bytes)
    requires Bare(r)
    ensures AsQuery(r).Done?
    ensures Answer(Add(New(indexed), FiveFieldRule(T, R, A, S, I)), AsQuery(r).value) ==
            Done(r.resourceType == T && r.resourceID == R && r.actionName == A &&
                 r.subjectType == S && r.subjectID == I && R != [] && S != [] && I != [])
  {
    var rule, q := FiveFieldRule(T, R, A, S, I), AsQuery(r).value;
    OneRule(rule, q, indexed);
    BareBelow(r, T, R, A, S, I);
  }

  lemma OneRule(rule: Element, q: Element, indexed: bool)
    requires rule.List? && q.List?
    ensures Answer(Add(New(indexed), rule), q) == Done(LessPermissive(q, rule))
  {
    var s := Add(New(indexed), rule);
    NewIndexed(indexed);
    IndexLastKeeps(New(indexed), rule);
    assert s.rules == [rule];
    AnswersByBook(s, q);
    assert Grants(BookOf(s), q) <==> LessPermissive(q, s.rules[0]);
  }

  /** Lists of atoms and of such lists compare place by place. */
  lemma ListBelow(x: Element, y: Element)
    requires x.List? && y.List?
    ensures LessPermissive(x, y) <==>
            && x.tag == y.tag && |y.elements| <= |x.elements|
            && forall i :: 0 <= i < |y.elements| ==> LessPermissive(x.elements[i], y.elements[i])
  {
    assert LessPermissive(x, y) == CompareLists(x, y);
  }

  lemma NamedBelow(tag: Bytes, v: Bytes, tag': Bytes, w: Bytes)
    ensures LessPermissive(Named(tag, v), Named(tag', w)) <==> tag == tag' && v == w
  {
    ListBelow(Named(tag, v), Named(tag', w));
    assert LessPermissive(Named(tag, v).elements[0], Named(tag', w).elements[0]) <==> v == w;
  }

  lemma BareBelow(r: EvaluationRequest, T: Bytes, R: Bytes, A: Bytes, S: Bytes, I: Bytes)
    requires Bare(r)
    ensures AsQuery(r).Done?
    ensures LessPermissive(AsQuery(r).value, FiveFieldRule(T, R, A, S, I)) <==>
            r.resourceType == T && r.resourceID == R && r.actionName == A &&
            r.subjectType == S && r.subjectID == I && R != [] && S != [] && I != []
  {
    SectionWords();
    AsQueryIs(r);
    var q, rule := AsQuery(r).value, FiveFieldRule(T, R, A, S, I);
    var action, subject := Named(WORD_ACTION, r.actionName), List(WORD_SUBJECT, Who(r));
    assert [Atom(r.actionName)] + [] == [Atom(r.actionName)] && Who(r) + [] == Who(r);
    ListBelow(q, rule);
    if r.resourceID != [] {
      assert q.elements == [Named(WORD_ID, r.resourceID), action, subject];
      NamedBelow(WORD_ID, r.resourceID, WORD_ID, R);
      NamedBelow(WORD_ACTION, r.actionName, WORD_ACTION, A);
      SubjectBelow(r, S, I);
      assert rule.elements ==
        [Named(WORD_ID, R), Named(WORD_ACTION, A), List(WORD_SUBJECT, [Named(WORD_TYPE, S), Named(WORD_ID, I)])];
      ThreeBelow(q.elements, rule.elements);
    } else {
      assert q.elements == [action, subject];
    }
  }

  lemma ThreeBelow(xs: seq<Element>, ys: seq<Element>)
    requires |xs| == |ys| == 3
    ensures (forall i :: 0 <= i < |ys| ==> LessPermissive(xs[i], ys[i])) <==>
            LessPermissive(xs[0], ys[0]) && LessPermissive(xs[1], ys[1]) && LessPermissive(xs[2], ys[2])
  {
  }

  lemma TwoBelow(xs: seq<Element>, ys: seq<Element>)
    requires |xs| == |ys| == 2
    ensures (forall i :: 0 <= i < |ys| ==> LessPermissive(xs[i], ys[i])) <==>
            LessPermissive(xs[0], ys[0]) && LessPermissive(xs[1], ys[1])
  {
  }

  lemma SubjectBelow(r: EvaluationRequest, S: Bytes, I: Bytes)
    ensures var rule := List(WORD_SUBJECT, [Named(WORD_TYPE, S), Named(WORD_ID, I)]);
            LessPermissive(List(WORD_SUBJECT, Who(r)), rule) <==>
            r.subjectType == S && r.subjectID == I && S != [] && I != []
  {
    var x, y := List(WORD_SUBJECT, Who(r)), List(WORD_SUBJECT, [Named(WORD_TYPE, S), Named(WORD_ID, I)]);
    ListBelow(x, y);
    if r.subjectType != [] && r.subjectID != [] {
      assert Who(r) == [Named(WORD_TYPE, r.subjectType), Named(WORD_ID, r.subjectID)];
      NamedBelow(WORD_TYPE, r.subjectType, WORD_TYPE, S);
      NamedBelow(WORD_ID, r.subjectID, WORD_ID, I);
      TwoBelow(x.elements, y.elements);
    }
  }
}

/** What byte order makes of ranges whose values are numbers or dates: where containment
    and matching agree with the order that is meant, and where they do not. */
module Ranges {

  import opened Wrappers
  import opened ByteStrings
  import opened Elements
  import opened StarForms
  import opened Compare

  // ------------------------------------------------------------------- byte order

  predicate ByteOrdered(t: RangeType)
  {
    !t.Date? && !t.Undeclared?
  }

  /** The range honours its bounds' operators: those of addresses do not. */
  predicate Honours(t: RangeType)
  {
    !t.IPv4? && !t.IPv6?
  }

  /** The first string a lower bound admits. */
  function Floor(r: Element): Bytes
    requires r.Range?
  {
    match r.lower
    case None => []
    case Some(Bound(op, v)) => if op == GT && Honours(r.rangeType) then v + [0] else v
  }

  /** The first string behind those an upper bound admits, if any. */
  function Ceiling(r: Element): Option<Bytes>
    requires r.Range?
  {
    match r.upper
    case None => None
    case Some(Bound(op, v)) => if op == LT && Honours(r.rangeType) then Some(v) else Some(v + [0])
  }

  /** No string comes between a string and the same with a zero byte behind it. */
  lemma {:induction false} Successor(x: Bytes, v: Bytes)
    ensures AtMost(x + [0], v) <==> Less(x, v)
  {
    assert (x + [0])[0] == if x == [] then 0 else x[0];
    if x != [] && v != [] {
      Successor(x[1..], v[1..]);
      assert (x + [0])[1..] == x[1..] + [0];
    } else if v != [] {
      assert x + [0] == [0] && !Less(v[1..], [0][1..]);
    }
  }

  /** A range is an interval of strings. */
  lemma RangeIsInterval(r: Element, v: Bytes)
    requires r.Range? && ByteOrdered(r.rangeType)
    ensures MatchRange(r, v) <==> AtMost(Floor(r), v) && (Ceiling(r).Some? ==> Less(v, Ceiling(r).value))
  {
    if r.lower.Some? {
      Successor(r.lower.value.value, v);
      AtMostTotal(r.lower.value.value, v);
    }
    if r.upper.Some? {
      Successor(r.upper.value.value, v);
      AtMostTotal(v, r.upper.value.value);
    }
  }

  /** No value at all. */
  predicate EmptyRange(r: Element)
    requires r.Range?
  {
    Ceiling(r).Some? && AtMost(Ceiling(r).value, Floor(r))
  }

  predicate Within(s: Element, t: Element)
    requires s.Range? && t.Range?
  {
    && AtMost(Floor(t), Floor(s))
    && (Ceiling(t).Some? ==> Ceiling(s).Some? && AtMost(Ceiling(s).value, Ceiling(t).value))
  }

  ghost predicate Contained(s: Element, t: Element)
    requires s.Range? && t.Range?
  {
    forall v :: MatchRange(s, v) ==> MatchRange(t, v)
  }

  /** Containment in byte order, for all bounds and operators, in terms of the bounds. */
  lemma RangesExactly(s: Element, t: Element)
    requires s.Range? && t.Range? && s.rangeType == t.rangeType && ByteOrdered(s.rangeType)
    ensures Contained(s, t) <==> EmptyRange(s) || Within(s, t)
  {
    forall v | EmptyRange(s) || Within(s, t) ensures MatchRange(s, v) ==> MatchRange(t, v) {
      RangeIsInterval(s, v);
      RangeIsInterval(t, v);
      if MatchRange(s, v) {
        ValueStays(s, t, v);
      }
    }
    if !EmptyRange(s) && !Within(s, t) {
      var v := RangeEscapes(s, t);
      assert !(MatchRange(s, v) ==> MatchRange(t, v));
    }
  }

  lemma ValueStays(s: Element, t: Element, v: Bytes)
    requires s.Range? && t.Range? && (EmptyRange(s) || Within(s, t))
    requires AtMost(Floor(s), v) && (Ceiling(s).Some? ==> Less(v, Ceiling(s).value))
    ensures AtMost(Floor(t), v) && (Ceiling(t).Some? ==> Less(v, Ceiling(t).value))
  {
    if EmptyRange(s) {
      AtMostTransitive(Ceiling(s).value, Floor(s), v);
      assert false;
    }
    AtMostTransitive(Floor(t), Floor(s), v);
    if Ceiling(t).Some? && AtMost(Ceiling(t).value, v) {
      AtMostTransitive(Ceiling(s).value, Ceiling(t).value, v);
    }
  }

  lemma RangeEscapes(s: Element, t: Element) returns (v: Bytes)
    requires s.Range? && t.Range? && s.rangeType == t.rangeType && ByteOrdered(s.rangeType)
    requires !EmptyRange(s) && !Within(s, t)
    ensures MatchRange(s, v) && !MatchRange(t, v)
  {
    v := Floor(s);
    if AtMost(Floor(t), Floor(s)) && AtMost(Floor(s), Ceiling(t).value) {
      v := Ceiling(t).value;
    }
    AtMostTotal(v, v);
    AtMostTotal(Floor(s), v);
    if Ceiling(t).Some? { AtMostTotal(Ceiling(t).value, v); }
    RangeIsInterval(s, v);
    RangeIsInterval(t, v);
  }

  /** The left bound excludes what the right admits with the string behind it, or has no
      bound where the right admits all strings. */
  predicate LowerMissed(s: Element, t: Element)
    requires s.Range? && t.Range?
  {
    && t.lower.Some? && !(t.lower.value.op == GT && Honours(t.rangeType))
    && var y := t.lower.value.value;
       if s.lower.None? then y == []
       else s.lower.value.op == GT && Honours(s.rangeType) && y == s.lower.value.value + [0]
  }

  predicate UpperMissed(s: Element, t: Element)
    requires s.Range? && t.Range?
  {
    && s.upper.Some? && s.upper.value.op == LT && Honours(s.rangeType)
    && t.upper.Some? && !(t.upper.value.op == LT && Honours(t.rangeType))
    && s.upper.value.value == t.upper.value.value + [0]
  }

  /** What compareRanges misses: of the containments of ranges that are not empty, exactly
      those with such neighbouring bounds. */
  lemma MissedExactly(s: Element, t: Element)
    requires s.Range? && t.Range? && s.rangeType == t.rangeType && ByteOrdered(s.rangeType)
    requires Contained(s, t) && !EmptyRange(s)
    ensures CompareRanges(s, t) <==> !LowerMissed(s, t) && !UpperMissed(s, t)
  {
    RangesExactly(s, t);
    LowerBounds(s, t);
    UpperBounds(s, t);
  }

  lemma LowerBounds(s: Element, t: Element)
    requires s.Range? && t.Range? && s.rangeType == t.rangeType && AtMost(Floor(t), Floor(s))
    ensures LowerMissed(s, t) <==>
            t.lower.Some? && (s.lower.None? || Less(s.lower.value.value, t.lower.value.value))
  {
    if t.lower.Some? {
      var y := t.lower.value.value;
      AtMostTotal(Floor(t), Floor(s));
      Successor(y, y);
      if s.lower.Some? {
        var x := s.lower.value.value;
        Successor(x, y);
        Successor(x, x + [0]);
        if Less(x, y) {
          NextIsHigher(x, y, Floor(t), Floor(s));
        } else if LowerMissed(s, t) {
          AtMostTotal(x + [0], x + [0]);
        }
      }
    }
  }

  /** A floor at or above y, and at most one step above x below y, is both y and x's next. */
  lemma NextIsHigher(x: Bytes, y: Bytes, upper: Bytes, lower: Bytes)
    requires Less(x, y) && (upper == y || upper == y + [0]) && (lower == x || lower == x + [0]) && AtMost(upper, lower)
    ensures upper == y == x + [0] == lower
  {
    Successor(x, y);
    Successor(y, y + [0]);
    AtMostTotal(y + [0], y + [0]);
    AtMostTotal(y, y + [0]);
    AtMostTotal(y, y);
    AtMostTransitive(y, upper, lower);
    AtMostTotal(y, x);
    AtMostTotal(y, x + [0]);
    Successor(y, x + [0]);
  }

  lemma UpperBounds(s: Element, t: Element)
    requires s.Range? && t.Range? && s.rangeType == t.rangeType
    requires Ceiling(t).Some? ==> Ceiling(s).Some? && AtMost(Ceiling(s).value, Ceiling(t).value)
    ensures UpperMissed(s, t) <==> t.upper.Some? && Less(t.upper.value.value, s.upper.value.value)
  {
    if t.upper.Some? {
      var x, y := s.upper.value.value, t.upper.value.value;
      Successor(y, x);
      if Less(y, x) {
        NextIsHigher(y, x, Ceiling(s).value, Ceiling(t).value);
      } else if UpperMissed(s, t) {
        AtMostTotal(x, x);
      }
    }
  }

  // --------------------------------------------------------------------- numbers

  /** Byte order and numeric order of two numerals agree: neither is longer, or the
      shorter comes first. */
  predicate OrdersAgree(m: nat, n: nat)
  {
    var x, y := Decimal(m), Decimal(n);
    if |x| < |y| then Less(x, y) else if |y| < |x| then Less(y, x) else true
  }

  lemma {:induction false} LessSnoc(x: Bytes, y: Bytes, a: byte, b: byte)
    requires |x| == |y|
    ensures Less(x + [a], y + [b]) <==> Less(x, y) || (x == y && a < b)
  {
    if x != [] {
      assert (x + [a])[1..] == x[1..] + [a] && (y + [b])[1..] == y[1..] + [b];
      LessSnoc(x[1..], y[1..], a, b);
      assert x == [x[0]] + x[1..] && y == [y[0]] + y[1..];
    }
  }

  /** Of numerals of one length the smaller is first; a shorter numeral is smaller. */
  lemma {:induction false} NumeralOrder(m: nat, n: nat)
    ensures |Decimal(m)| == |Decimal(n)| ==> (Less(Decimal(m), Decimal(n)) <==> m < n)
    ensures |Decimal(m)| < |Decimal(n)| ==> m < n
  {
    if m >= 10 && n >= 10 {
      NumeralOrder(m / 10, n / 10);
      DigitsOfDecimal(m / 10);
      DigitsOfDecimal(n / 10);
      if |Decimal(m)| == |Decimal(n)| {
        LessSnoc(Decimal(m / 10), Decimal(n / 10), (48 + m % 10) as byte, (48 + n % 10) as byte);
      }
    } else if m >= 10 {
      assert |Decimal(m)| >= 2 && |Decimal(n)| == 1;
    } else if n >= 10 {
      assert |Decimal(n)| >= 2 && |Decimal(m)| == 1;
    }
  }

  /** Exactly then do the two orders agree. */
  lemma NumeralOrderExactly(m: nat, n: nat)
    ensures (Less(Decimal(m), Decimal(n)) <==> m < n) && (Less(Decimal(n), Decimal(m)) <==> n < m) <==>
            OrdersAgree(m, n)
  {
    NumeralOrder(m, n);
    NumeralOrder(n, m);
    AtMostTotal(Decimal(m), Decimal(n));
  }

  function NumericRange(lo: Option<nat>, hi: Option<nat>): (r: Element)
    ensures r.Range?
  {
    Range(Numeric, if lo.None? then None else Some(Bound(GE, Decimal(lo.value))),
          if hi.None? then None else Some(Bound(LE, Decimal(hi.value))))
  }

  /** A numeric range treats a number as the draft means it, bound by bound, exactly when
      the orders agree on the number and the bound. */
  lemma NumericBoundExactly(bound: nat, n: nat)
    ensures (MatchRange(NumericRange(Some(bound), None), Decimal(n)) <==> bound <= n) &&
            (MatchRange(NumericRange(None, Some(bound)), Decimal(n)) <==> n <= bound) <==>
            OrdersAgree(bound, n)
  {
    NumeralOrderExactly(bound, n);
  }

  lemma {:induction false} LessExtends(x: Bytes, y: Bytes, u: Bytes, v: Bytes)
    requires Less(x, y) && |x| >= |y|
    ensures Less(x + u, y + v)
  {
    assert (x + u)[0] == x[0] && (y + v)[0] == y[0];
    if x[0] == y[0] {
      LessExtends(x[1..], y[1..], u, v);
      assert (x + u)[1..] == x[1..] + u && (y + v)[1..] == y[1..] + v;
    }
  }

  lemma {:induction false} AtMostExtended(x: Bytes, w: Bytes)
    ensures AtMost(x, x + w)
  {
    if x != [] {
      AtMostExtended(x[1..], w);
      assert (x + w)[1..] == x[1..] + w;
    }
  }

  /** A numeral that is one digit longer than the number before it comes first. */
  lemma {:induction false} LongerIsFirst(n: nat)
    requires |Decimal(n + 1)| != |Decimal(n)|
    ensures Less(Decimal(n + 1), Decimal(n)) && |Decimal(n + 1)| > |Decimal(n)|
  {
    if n >= 10 {
      assert (n + 1) / 10 == n / 10 + 1;
      LongerIsFirst(n / 10);
      LessExtends(Decimal(n / 10 + 1), Decimal(n / 10), [48], [57]);
    } else {
      assert n == 9;
    }
  }

  /** No numeral stands between a numeral and the numeral with a zero behind it. */
  lemma {:induction false} NothingBetween(x: Bytes, y: Bytes)
    requires AtMost(x, y) && Less(y, x + [48])
    requires forall i :: 0 <= i < |y| ==> IsDigit(y[i])
    ensures x == y
  {
    assert y != [] ==> IsDigit(y[0]);
    if x != [] {
      assert (x + [48])[1..] == x[1..] + [48];
      assert y != [] && y[0] == x[0];
      NothingBetween(x[1..], y[1..]);
      assert x == [x[0]] + x[1..] && y == [y[0]] + y[1..];
    }
  }

  lemma {:induction false} PositiveNumeral(n: nat)
    requires n >= 1
    ensures Decimal(n)[0] >= 49
    ensures AtMost([49], Decimal(n)) && AtMost([48], Decimal(n))
  {
    if n >= 10 {
      PositiveNumeral(n / 10);
    }
  }

  lemma DecimalInjective(m: nat, n: nat)
    ensures Decimal(m) == Decimal(n) <==> m == n
  {
    DigitsOfDecimal(m);
    DigitsOfDecimal(n);
  }

  /** The range treats the number as the draft means it. */
  predicate Right(lo: nat, hi: nat, n: nat)
  {
    MatchRange(NumericRange(Some(lo), Some(hi)), Decimal(n)) <==> lo <= n <= hi
  }

  lemma NextTenfold(lo: nat, m: nat)
    requires m >= 1 && AtMost(Decimal(lo), Decimal(m))
    ensures Decimal(10 * m) == Decimal(m) + [48] && AtMost(Decimal(lo), Decimal(10 * m))
  {
    AtMostExtended(Decimal(m), [48]);
    AtMostTransitive(Decimal(lo), Decimal(m), Decimal(10 * m));
  }

  lemma StopsAt(m: nat, hi: nat)
    requires AtMost(Decimal(m), Decimal(hi)) && Less(Decimal(hi), Decimal(m) + [48])
    ensures Decimal(m) == Decimal(hi) && m == hi
  {
    forall i | 0 <= i < |Decimal(hi)| ensures IsDigit(Decimal(hi)[i]) {
      DecimalDigit(hi, i);
    }
    NothingBetween(Decimal(m), Decimal(hi));
    DecimalInjective(m, hi);
  }

  /** Ten times a matched number in range, or ten times that, is wrong some time, unless
      the upper bound itself is reached. */
  lemma {:induction false} TenfoldEscapes(lo: nat, hi: nat, m: nat) returns (n: nat)
    requires 1 <= lo <= m <= hi
    requires AtMost(Decimal(lo), Decimal(m)) && AtMost(Decimal(m), Decimal(hi))
    ensures n >= 1 && (!Right(lo, hi, n) || (n == hi && exists w :: Decimal(hi) == Decimal(m) + w))
    decreases hi - m
  {
    NextTenfold(lo, m);
    if AtMost(Decimal(10 * m), Decimal(hi)) && 10 * m <= hi {
      n := TenfoldEscapes(lo, hi, 10 * m);
      if Right(lo, hi, n) {
        var w :| Decimal(hi) == Decimal(10 * m) + w;
        assert Decimal(hi) == Decimal(m) + ([48] + w);
      }
    } else if AtMost(Decimal(10 * m), Decimal(hi)) || 10 * m <= hi {
      n := 10 * m;
    } else {
      n := hi;
      StopsAt(m, hi);
      assert Decimal(hi) == Decimal(m) + [];
    }
  }

  /** Between different bounds some number is wrong. */
  lemma SomeNumberWrong(lo: nat, hi: nat) returns (n: nat)
    requires 1 <= lo < hi
    ensures n >= 1 && !Right(lo, hi, n)
  {
    AtMostTotal(Decimal(lo), Decimal(lo));
    if !AtMost(Decimal(lo), Decimal(hi)) {
      n := lo;
    } else {
      n := TenfoldEscapes(lo, hi, lo);
      if Right(lo, hi, n) {
        var w :| Decimal(hi) == Decimal(lo) + w;
        n := lo + 1;
        if |Decimal(lo + 1)| == |Decimal(lo)| {
          NumeralOrder(lo, lo + 1);
          LessExtends(Decimal(lo), Decimal(lo + 1), w, []);
          assert Decimal(lo + 1) + [] == Decimal(lo + 1);
        } else {
          LongerIsFirst(lo);
        }
      }
    }
  }

  /** A numeric range with two inclusive bounds treats every number as the draft means it
      only in trivial cases: equal bounds, the bounds 0 and 1, or bounds that are out of
      order both as numbers and as texts. */
  lemma NumericRangeExactly(lo: nat, hi: nat)
    ensures (forall n: nat :: Right(lo, hi, n)) <==>
            lo == hi || (lo == 0 && hi == 1) || (hi < lo && Less(Decimal(hi), Decimal(lo)))
  {
    if lo == hi {
      forall n: nat ensures Right(lo, hi, n) {
        AtMostTotal(Decimal(lo), Decimal(n));
        DecimalInjective(lo, n);
      }
    } else if lo == 0 && hi == 1 {
      forall n: nat ensures Right(lo, hi, n) {
        UpToOne(n);
      }
    } else if hi < lo {
      if Less(Decimal(hi), Decimal(lo)) {
        forall n: nat ensures Right(lo, hi, n) {
          if AtMost(Decimal(lo), Decimal(n)) && AtMost(Decimal(n), Decimal(hi)) {
            AtMostTransitive(Decimal(lo), Decimal(n), Decimal(hi));
          }
        }
      } else {
        AtMostTotal(Decimal(lo), Decimal(lo));
        assert !Right(lo, hi, lo);
      }
    } else {
      var n := SomeNumberWrong(if lo == 0 then 1 else lo, hi);
      PositiveNumeral(n);
      assert !Right(lo, hi, n);
    }
  }

  lemma UpToOne(n: nat)
    ensures Right(0, 1, n)
  {
    AtMostTotal([48], [48]);
    AtMostTotal([49], [49]);
    if n >= 1 {
      PositiveNumeral(n);
      AtMostTotal([49], Decimal(n));
      DecimalInjective(1, n);
    }
  }

  /** One, and so many zeros behind it. */
  function Power(k: nat): (n: nat)
    ensures n >= 1
  {
    if k == 0 then 1 else 10 * Power(k - 1)
  }

  lemma {:induction false} PowerNumeral(k: nat)
    ensures |Decimal(Power(k))| == k + 1 && Decimal(Power(k))[0] == 49
  {
    if k > 0 {
      PowerNumeral(k - 1);
    }
  }

  /** From 2 on, every bound is wrong about some number. */
  lemma OrdersDisagree(bound: nat) returns (n: nat)
    requires bound >= 2
    ensures !OrdersAgree(bound, n)
  {
    var d := Decimal(bound);
    PositiveNumeral(bound);
    if bound < 10 {
      n := 10;
    } else if d[0] == 57 {
      n := Power(|d|);
      PowerNumeral(|d|);
    } else {
      n := 9;
      DecimalDigit(bound, 0);
      NumeralOrder(bound, 9);
      assert |d| >= 2 && Decimal(9) == [57];
    }
  }

  lemma SmallBoundsAgree(bound: nat, n: nat)
    requires bound <= 1
    ensures OrdersAgree(bound, n)
  {
    if n >= 1 {
      PositiveNumeral(n);
      AtMostTotal([49], Decimal(n));
      AtMostTotal([48], Decimal(n));
    }
  }

  /** With one inclusive bound, lower or upper, a numeric range is right on all numbers
      exactly when the bound is 0 or 1. */
  lemma NumericSideExactly(bound: nat)
    ensures (forall n: nat :: MatchRange(NumericRange(Some(bound), None), Decimal(n)) <==> bound <= n) <==> bound <= 1
    ensures (forall n: nat :: MatchRange(NumericRange(None, Some(bound)), Decimal(n)) <==> n <= bound) <==> bound <= 1
  {
    if bound <= 1 {
      forall n: nat
        ensures MatchRange(NumericRange(Some(bound), None), Decimal(n)) <==> bound <= n
        ensures MatchRange(NumericRange(None, Some(bound)), Decimal(n)) <==> n <= bound
      {
        SmallBoundsAgree(bound, n);
        NumericBoundExactly(bound, n);
      }
    } else {
      var n := OrdersDisagree(bound);
      BothSidesWrong(bound, n);
    }
  }

  lemma BothSidesWrong(bound: nat, n: nat)
    requires !OrdersAgree(bound, n)
    ensures !(MatchRange(NumericRange(Some(bound), None), Decimal(n)) <==> bound <= n)
    ensures !(MatchRange(NumericRange(None, Some(bound)), Decimal(n)) <==> n <= bound)
  {
    NumeralOrder(bound, n);
    NumeralOrder(n, bound);
    AtMostTotal(Decimal(bound), Decimal(n));
    DecimalInjective(bound, n);
  }

  /** The range from 10 to 20 matches 100. */
  lemma HundredBelowTwenty()
    ensures LessPermissive(Atom(Decimal(100)), NumericRange(Some(10), Some(20)))
  {
    assert Decimal(100) == Decimal(10) + [48];
    assert Decimal(10) == [49, 48] && Decimal(20) == [50, 48];
  }

  // ----------------------------------------------------------------------- dates

  function Instant(b: Bound): Option<int>
  {
    ParseDate(b.value)
  }

  /** A date range with a value at each bound it has: the bounds are inclusive dates, in
      order if there are two. */
  predicate DateSpan(r: Element)
  {
    && r.Range? && r.rangeType.Date?
    && (r.lower.Some? ==> r.lower.value.op != GT && Instant(r.lower.value).Some?)
    && (r.upper.Some? ==> r.upper.value.op != LT && Instant(r.upper.value).Some?)
    && (r.lower.Some? && r.upper.Some? ==> Instant(r.lower.value).value <= Instant(r.upper.value).value)
  }

  /** The left range has a bound wherever the right has one. */
  predicate BoundedLike(s: Element, t: Element)
    requires s.Range? && t.Range?
  {
    (t.lower.Some? ==> s.lower.Some?) && (t.upper.Some? ==> s.upper.Some?)
  }

  /** A span is contained in a date range, of any bounds and operators, exactly when each
      of its ends passes the range's bound on that side. */
  lemma DateContainmentExactly(s: Element, t: Element)
    requires DateSpan(s) && t.Range? && t.rangeType.Date? && BoundedLike(s, t)
    ensures Contained(s, t) <==>
            (s.lower.Some? ==> MatchRange(t.(upper := None), s.lower.value.value)) &&
            (s.upper.Some? ==> MatchRange(t.(lower := None), s.upper.value.value))
  {
    if s.lower.Some? { assert MatchRange(s, s.lower.value.value); }
    if s.upper.Some? { assert MatchRange(s, s.upper.value.value); }
  }

  predicate TextsWithin(s: Element, t: Element)
    requires s.Range? && t.Range? && BoundedLike(s, t)
  {
    && (t.lower.Some? ==> AtMost(t.lower.value.value, s.lower.value.value))
    && (t.upper.Some? ==> AtMost(s.upper.value.value, t.upper.value.value))
  }

  predicate InstantsWithin(s: Element, t: Element)
    requires DateSpan(s) && DateSpan(t) && BoundedLike(s, t)
  {
    && (t.lower.Some? ==> Instant(t.lower.value).value <= Instant(s.lower.value).value)
    && (t.upper.Some? ==> Instant(s.upper.value).value <= Instant(t.upper.value).value)
  }

  /** compareRanges answers from the bounds' texts. For two spans it is right exactly when
      the texts say of the bounds what the instants say. */
  lemma DateComparisonExactly(s: Element, t: Element)
    requires DateSpan(s) && DateSpan(t) && BoundedLike(s, t)
    ensures CompareRanges(s, t) <==> TextsWithin(s, t)
    ensures Contained(s, t) <==> InstantsWithin(s, t)
  {
    DateContainmentExactly(s, t);
  }

  /** 2024-01-01T00:00:00+02:00. */
  const NEW_YEAR_EAST: Bytes :=
    [50, 48, 50, 52, 45, 48, 49, 45, 48, 49, 84, 48, 48, 58, 48, 48, 58, 48, 48, 43, 48, 50, 58, 48, 48]

  /** 2023-12-31T23:00:00Z, an hour later. */
  const HOUR_LATER: Bytes :=
    [50, 48, 50, 51, 45, 49, 50, 45, 51, 49, 84, 50, 51, 58, 48, 48, 58, 48, 48, 90]

  function Until(text: Bytes): (r: Element)
    ensures r.Range?
  {
    Range(Date, None, Some(Bound(LE, text)))
  }

  lemma LaterPasses(end: Bytes, later: Bytes)
    requires ParseDate(end).Some? && ParseDate(later).Some? && ParseDate(end).value < ParseDate(later).value
    requires Less(later, end)
    ensures LessPermissive(Until(later), Until(end))
    ensures MatchRange(Until(later), later) && !MatchRange(Until(end), later)
  {
    AtMostTotal(later, end);
  }

  /** Seen from two time zones: a range that ends an hour later passes for contained. */
  lemma TimeZonesMislead(x: int)
    requires ParseDate(NEW_YEAR_EAST) == Some(x) && ParseDate(HOUR_LATER) == Some(x + 3600)
    ensures LessPermissive(Until(HOUR_LATER), Until(NEW_YEAR_EAST))
    ensures MatchRange(Until(HOUR_LATER), HOUR_LATER) && !MatchRange(Until(NEW_YEAR_EAST), HOUR_LATER)
  {
    assert Less(HOUR_LATER, NEW_YEAR_EAST) by {
      assert HOUR_LATER[..3] == [50, 48, 50] == NEW_YEAR_EAST[..3];
      LessAt(HOUR_LATER, NEW_YEAR_EAST, 3);
    }
    LaterPasses(NEW_YEAR_EAST, HOUR_LATER);
  }

  lemma {:induction false} LessAt(x: Bytes, y: Bytes, k: nat)
    requires k < |x| && k < |y| && x[..k] == y[..k] && x[k] < y[k]
    ensures Less(x, y)
  {
    if k > 0 {
      assert x[0] == x[..k][0] == y[..k][0] == y[0];
      assert x[1..][..k - 1] == x[..k][1..] == y[1..][..k - 1];
      LessAt(x[1..], y[1..], k - 1);
    }
  }
}

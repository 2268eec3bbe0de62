/** Byte strings as the program uses them: Go's byte-wise order on strings, the
    decimal numerals that prefix every value, and the machine's 64-bit int. */
module ByteStrings {

  import opened Wrappers

  newtype byte = b: int | 0 <= b < 256

  type Bytes = seq<byte>

  const LPAREN: byte := 40
  const RPAREN: byte := 41
  const STAR: byte := 42
  const PLUS: byte := 43
  const MINUS: byte := 45
  const COLON: byte := 58

  /** The bytes of an ASCII text, to write words out where they are meant. */
  function Ascii(text: string): (s: Bytes)
    ensures |s| == |text| && forall i :: 0 <= i < |text| ==> s[i] as int == text[i] as int % 256
  {
    seq(|text|, i requires 0 <= i < |text| => (text[i] as int % 256) as byte)
  }

  // ---------------------------------------------------------------- order

  /** Go's a < b on strings. */
  predicate Less(a: Bytes, b: Bytes)
  {
    b != [] && (a == [] || a[0] < b[0] || (a[0] == b[0] && Less(a[1..], b[1..])))
  }

  /** Go's a <= b on strings. */
  predicate AtMost(a: Bytes, b: Bytes)
  {
    !Less(b, a)
  }

  lemma {:induction false} AtMostTotal(a: Bytes, b: Bytes)
    ensures AtMost(a, b) || AtMost(b, a)
    ensures AtMost(a, b) && AtMost(b, a) <==> a == b
    decreases |a|
  {
    if a != [] && b != [] {
      AtMostTotal(a[1..], b[1..]);
      assert a == [a[0]] + a[1..] && b == [b[0]] + b[1..];
    }
  }

  lemma {:induction false} AtMostTransitive(a: Bytes, b: Bytes, c: Bytes)
    requires AtMost(a, b) && AtMost(b, c)
    ensures AtMost(a, c)
    decreases |b|
  {
    if a != [] && b != [] && c != [] {
      if a[0] == b[0] == c[0] {
        AtMostTransitive(a[1..], b[1..], c[1..]);
      }
    }
  }

  // ------------------------------------------------------ prefix and suffix

  /** strings.HasPrefix. */
  predicate HasPrefix(s: Bytes, p: Bytes)
  {
    |p| <= |s| && s[..|p|] == p
  }

  /** strings.HasSuffix. */
  predicate HasSuffix(s: Bytes, p: Bytes)
  {
    |p| <= |s| && s[|s| - |p|..] == p
  }

  /** Position of the first `c` in `s`, as strings.IndexByte. */
  function IndexByte(s: Bytes, c: byte): (r: Option<nat>)
    ensures r.Some? ==> r.value < |s|
  {
    if s == [] then None
    else if s[0] == c then Some(0)
    else
      match IndexByte(s[1..], c)
      case None => None
      case Some(i) => Some(i + 1)
  }

  lemma {:induction false} IndexByteFound(s: Bytes, c: byte)
    requires IndexByte(s, c).Some?
    ensures s[IndexByte(s, c).value] == c
  {
    if s[0] != c {
      IndexByteFound(s[1..], c);
    }
  }

  /** It is the first one, and there is one whenever `c` occurs. */
  lemma {:induction false} IndexByteAt(s: Bytes, c: byte, i: nat)
    requires i < |s| && s[i] == c
    requires forall k :: 0 <= k < i ==> s[k] != c
    ensures IndexByte(s, c) == Some(i)
  {
    if i > 0 {
      IndexByteAt(s[1..], c, i - 1);
    }
  }

  /** A position found stays the first when more bytes follow. */
  lemma {:induction false} IndexByteExtends(s: Bytes, more: Bytes, c: byte)
    requires IndexByte(s, c).Some?
    ensures IndexByte(s + more, c) == IndexByte(s, c)
  {
    assert (s + more)[1..] == s[1..] + more;
    if s[0] != c {
      IndexByteExtends(s[1..], more, c);
    }
  }

  // --------------------------------------------------------------- numerals

  const MAX_INT := 0x7FFF_FFFF_FFFF_FFFF

  /** The value a Go int holds after adding two ints: two's complement, 64 bits. */
  function WrapInt(x: int): int
  {
    if x > MAX_INT then x - 0x1_0000_0000_0000_0000
    else if x < -MAX_INT - 1 then x + 0x1_0000_0000_0000_0000
    else x
  }

  predicate IsDigit(c: byte)
  {
    48 <= c <= 57
  }

  /** The number a run of decimal digits stands for; none if it holds anything else. */
  function DigitsValue(s: Bytes): Option<nat>
  {
    if s == [] then Some(0)
    else
      match DigitsValue(s[..|s| - 1])
      case Some(v) =>
        if IsDigit(s[|s| - 1]) then Some(10 * v + (s[|s| - 1] as int - 48)) else None
      case None => None
  }

  /** The numeral fmt prints for %d. */
  function Decimal(n: nat): (s: Bytes)
    ensures s != []
  {
    if n < 10 then [(48 + n) as byte]
    else Decimal(n / 10) + [(48 + n % 10) as byte]
  }

  /** strconv.Atoi: an optional sign, at least one digit, and a value that fits an int. */
  function Atoi(s: Bytes): Option<int>
  {
    var signed := s != [] && (s[0] == PLUS || s[0] == MINUS);
    var digits := if signed then s[1..] else s;
    if digits == [] then None
    else
      match DigitsValue(digits)
      case None => None
      case Some(magnitude) =>
        var n: int := if signed && s[0] == MINUS then 0 - magnitude else magnitude;
        if -MAX_INT - 1 <= n <= MAX_INT then Some(n) else None
  }

  lemma {:induction false} DigitsOfDecimal(n: nat)
    ensures DigitsValue(Decimal(n)) == Some(n)
  {
    if n < 10 {
      assert Decimal(n)[..0] == [];
    } else {
      DigitsOfDecimal(n / 10);
      var s := Decimal(n);
      assert s[..|s| - 1] == Decimal(n / 10);
    }
  }

  lemma {:induction false} OnlyDigits(s: Bytes, i: nat)
    requires DigitsValue(s).Some? && i < |s|
    ensures IsDigit(s[i])
  {
    if i < |s| - 1 {
      OnlyDigits(s[..|s| - 1], i);
    }
  }

  lemma DecimalDigit(n: nat, i: nat)
    requires i < |Decimal(n)|
    ensures IsDigit(Decimal(n)[i])
  {
    DigitsOfDecimal(n);
    OnlyDigits(Decimal(n), i);
  }

  /** Atoi reads back what %d prints. */
  lemma AtoiOfDecimal(n: nat)
    requires n <= MAX_INT
    ensures Atoi(Decimal(n)) == Some(n)
  {
    DigitsOfDecimal(n);
    DecimalDigit(n, 0);
  }

  /** Among all digit strings of one value the printed numeral is the only shortest. */
  lemma {:induction false} DecimalIsShortest(s: Bytes)
    requires s != [] && DigitsValue(s).Some?
    ensures |Decimal(DigitsValue(s).value)| <= |s|
    ensures |Decimal(DigitsValue(s).value)| == |s| ==> Decimal(DigitsValue(s).value) == s
  {
    var front, d := s[..|s| - 1], s[|s| - 1];
    var v, w := DigitsValue(s).value, DigitsValue(front).value;
    assert s == front + [d];
    assert v == 10 * w + (d as int - 48);
    if front == [] {
      assert w == 0;
    } else {
      DecimalIsShortest(front);
      assert v / 10 == w && v % 10 == d as int - 48;
    }
  }

  /** The same for every text that Atoi accepts: signs and leading zeros only add bytes. */
  lemma AtoiIsLongest(s: Bytes)
    requires Atoi(s).Some? && Atoi(s).value >= 0
    ensures |Decimal(Atoi(s).value)| <= |s|
    ensures |Decimal(Atoi(s).value)| == |s| ==> Decimal(Atoi(s).value) == s
  {
    var digits := if s[0] == PLUS || s[0] == MINUS then s[1..] else s;
    DecimalIsShortest(digits);
    if s[0] == MINUS {
      assert DigitsValue(digits) == Some(0);
    }
  }

  lemma {:induction false} LeadingZeros(k: nat, s: Bytes)
    ensures DigitsValue(seq(k, _ => 48 as byte) + s) == DigitsValue(s)
    decreases k + |s|
  {
    var z := seq(k, _ => 48 as byte);
    if s != [] {
      LeadingZeros(k, s[..|s| - 1]);
      assert (z + s)[..|z + s| - 1] == z + s[..|s| - 1];
    } else if k > 0 {
      LeadingZeros(k - 1, []);
      assert z + s == z && z[..k - 1] == seq(k - 1, _ => 48 as byte) + [];
    }
  }

  /** What Atoi makes of a numeral with a sign and leading zeros. */
  lemma AtoiReads(k: nat, n: nat)
    requires n <= MAX_INT
    ensures var s := seq(k, _ => 48 as byte) + Decimal(n);
            Atoi(s) == Some(n) && Atoi([PLUS] + s) == Some(n) && Atoi([MINUS] + s) == Some(0 - n as int)
  {
    var z, d := seq(k, _ => 48 as byte), Decimal(n);
    LeadingZeros(k, d);
    DigitsOfDecimal(n);
    DecimalDigit(n, 0);
    assert (z + d)[0] == if k > 0 then 48 else d[0];
    assert ([PLUS] + (z + d))[1..] == z + d && ([MINUS] + (z + d))[1..] == z + d;
  }

  // ----------------------------------------------------------- length:value

  /** A value behind its length: the one framing of atoms, tags and messages. */
  function LV(v: Bytes): (s: Bytes)
    ensures |s| >= |v| + 2
  {
    Decimal(|v|) + [COLON] + v
  }

  lemma Regroup(a: Bytes, b: Bytes, c: Bytes)
    ensures a + (b + c) == a + b + c
  {
  }

  /** The first colon of a framed value ends its length. */
  lemma LVColon(v: Bytes, rest: Bytes)
    ensures IndexByte(LV(v) + rest, COLON) == Some(|Decimal(|v|)|)
  {
    var d := Decimal(|v|);
    var s := LV(v) + rest;
    forall k | 0 <= k < |d| ensures s[k] != COLON {
      DecimalDigit(|v|, k);
      assert s[k] == d[k];
    }
    IndexByteAt(s, COLON, |d|);
  }
}

/** Go's reading of a string as runes: where a rune ends, and which ones are white
    space. */
module Utf8 {

  import opened ByteStrings

  predicate Continuation(c: byte)
  {
    0x80 <= c <= 0xBF
  }

  /** Length of the well-formed rune at the start; 0 if there is none. */
  function RuneLength(s: Bytes): (n: nat)
    requires s != []
    ensures n <= |s|
  {
    var c := s[0];
    if c < 0x80 then 1
    else if 0xC2 <= c <= 0xDF && |s| >= 2 && Continuation(s[1]) then 2
    else if 0xE0 <= c <= 0xEF && |s| >= 3 && Continuation(s[1]) && Continuation(s[2])
            && (c == 0xE0 ==> s[1] >= 0xA0) && (c == 0xED ==> s[1] <= 0x9F) then 3
    else if 0xF0 <= c <= 0xF4 && |s| >= 4 && Continuation(s[1]) && Continuation(s[2]) && Continuation(s[3])
            && (c == 0xF0 ==> s[1] >= 0x90) && (c == 0xF4 ==> s[1] <= 0x8F) then 4
    else 0
  }

  /** One pass of a range loop: the rune as WriteRune writes it, U+FFFD for a malformed
      byte, and whether it starts at the last byte of the string. */
  datatype Step = Step(rune: Bytes, atLastByte: bool)

  /** The passes of a range loop over the string. */
  function Runes(s: Bytes): seq<Step>
  {
    if s == [] then []
    else
      var n := RuneLength(s);
      if n == 0 then [Step([0xEF, 0xBF, 0xBD], |s| == 1)] + Runes(s[1..])
      else [Step(s[..n], |s| == 1)] + Runes(s[n..])
  }

  /** unicode.IsSpace, on the k bytes from position i. */
  predicate SpaceAt(s: Bytes, i: nat, k: nat)
    requires i + k <= |s|
  {
    match k
    case 1 => 9 <= s[i] <= 13 || s[i] == 32
    case 2 => s[i] == 0xC2 && (s[i + 1] == 0x85 || s[i + 1] == 0xA0)
    case 3 =>
      || (s[i] == 0xE1 && s[i + 1] == 0x9A && s[i + 2] == 0x80)
      || (s[i] == 0xE2 && s[i + 1] == 0x80 && SpaceE280(s[i + 2]))
      || (s[i] == 0xE2 && s[i + 1] == 0x81 && s[i + 2] == 0x9F)
      || (s[i] == 0xE3 && s[i + 1] == 0x80 && s[i + 2] == 0x80)
    case _ => false
  }

  predicate SpaceE280(c: byte)
  {
    0x80 <= c <= 0x8A || c == 0xA8 || c == 0xA9 || c == 0xAF
  }

  /** Length, from k on, of the space that ends the string; 0 if none does. */
  function SpaceAtEnd(s: Bytes, k: nat := 1): (n: nat)
    ensures n <= |s|
    decreases 4 - k
  {
    if k > 3 || k > |s| then 0
    else if SpaceAt(s, |s| - k, k) then k
    else SpaceAtEnd(s, k + 1)
  }

  function SpaceAtStart(s: Bytes, k: nat := 1): (n: nat)
    ensures n <= |s|
    decreases 4 - k
  {
    if k > 3 || k > |s| then 0
    else if SpaceAt(s, 0, k) then k
    else SpaceAtStart(s, k + 1)
  }

  function TrimRight(s: Bytes): (t: Bytes)
    ensures |t| <= |s| && t == s[..|t|]
  {
    var n := SpaceAtEnd(s);
    if n == 0 then s else TrimRight(s[..|s| - n])
  }

  function TrimLeft(s: Bytes): Bytes
  {
    var n := SpaceAtStart(s);
    if n == 0 then s else TrimLeft(s[n..])
  }

  /** strings.TrimSpace. */
  function TrimSpace(s: Bytes): Bytes
  {
    TrimRight(TrimLeft(s))
  }

  predicate SpaceLead(c: byte)
  {
    9 <= c <= 13 || c == 32 || c == 0xC2 || c == 0xE1 || c == 0xE2 || c == 0xE3
  }

  lemma {:induction false} SpaceStarts(s: Bytes, k: nat)
    requires k >= 1 && s != [] && !SpaceLead(s[0])
    ensures SpaceAtStart(s, k) == 0
    decreases 4 - k
  {
    if k <= 3 && k <= |s| {
      SpaceStarts(s, k + 1);
    }
  }

  lemma {:induction false} SpaceEnds(s: Bytes, k: nat)
    requires k >= 1 && SpaceAtEnd(s, k) > 0
    ensures SpaceLead(s[|s| - SpaceAtEnd(s, k)])
    decreases 4 - k
  {
    if !SpaceAt(s, |s| - k, k) {
      SpaceEnds(s, k + 1);
    }
  }

  lemma {:induction false} NoSpaceAtEnd(s: Bytes, k: nat)
    requires k >= 1 && s != [] && s[|s| - 1] < 128 && !(9 <= s[|s| - 1] <= 13) && s[|s| - 1] != 32
    ensures SpaceAtEnd(s, k) == 0
    decreases 4 - k
  {
    if k <= 3 && k <= |s| {
      NoSpaceAtEnd(s, k + 1);
    }
  }

  /** A string that starts with no byte a space starts with keeps its start, and keeps
      all of it when no space ends it. */
  lemma {:induction false} TrimKeepsStart(s: Bytes)
    requires s != [] && !SpaceLead(s[0])
    ensures TrimSpace(s) == TrimRight(s) && TrimRight(s) != []
    ensures TrimRight(s) == s <==> SpaceAtEnd(s) == 0
  {
    SpaceStarts(s, 1);
    if SpaceAtEnd(s) > 0 {
      SpaceEnds(s, 1);
      TrimKeepsStart(s[..|s| - SpaceAtEnd(s)]);
    }
  }

  /** ASCII white space. */
  predicate Blank(s: Bytes)
  {
    forall i :: 0 <= i < |s| ==> 9 <= s[i] <= 13 || s[i] == 32
  }

  lemma {:induction false} BlankFront(g: Bytes, s: Bytes)
    requires Blank(g)
    ensures TrimLeft(g + s) == TrimLeft(s)
  {
    if g == [] {
      assert g + s == s;
    } else {
      assert SpaceAtStart(g + s) == 1;
      assert (g + s)[1..] == g[1..] + s;
      BlankFront(g[1..], s);
    }
  }

  lemma {:induction false} BlankBack(s: Bytes, g: Bytes)
    requires Blank(g)
    ensures TrimRight(s + g) == TrimRight(s)
  {
    if g == [] {
      assert s + g == s;
    } else {
      assert SpaceAtEnd(s + g) == 1;
      assert (s + g)[..|s + g| - 1] == s + g[..|g| - 1];
      BlankBack(s, g[..|g| - 1]);
    }
  }

  /** White space around a text that starts with none is trimmed away. */
  lemma TrimsBlanks(front: Bytes, s: Bytes, back: Bytes)
    requires Blank(front) && Blank(back) && s != [] && !SpaceLead(s[0])
    ensures TrimSpace(front + s + back) == TrimRight(s)
  {
    assert front + s + back == front + (s + back);
    BlankFront(front, s + back);
    SpaceStarts(s + back, 1);
    assert TrimLeft(s + back) == s + back;
    BlankBack(s, back);
  }

  // ------------------------------------------------------------------ code points

  /** The UTF-8 encoding of a code point. */
  function Encode(p: nat): (s: Bytes)
    requires p <= 0x10FFFF
    ensures s != []
  {
    if p < 0x80 then [p as byte]
    else if p < 0x800 then [(0xC0 + p / 64) as byte, (0x80 + p % 64) as byte]
    else if p < 0x10000 then [(0xE0 + p / 4096) as byte, (0x80 + p / 64 % 64) as byte, (0x80 + p % 64) as byte]
    else
      [(0xF0 + p / 262144) as byte, (0x80 + p / 4096 % 64) as byte, (0x80 + p / 64 % 64) as byte,
       (0x80 + p % 64) as byte]
  }

  /** Code points but for the surrogates. */
  predicate Scalar(p: nat)
  {
    p <= 0x10FFFF && !(0xD800 <= p <= 0xDFFF)
  }

  /** Every encoded code point is read as one rune, whatever follows. */
  lemma EncodedIsRune(p: nat, rest: Bytes)
    requires Scalar(p)
    ensures RuneLength(Encode(p) + rest) == |Encode(p)|
  {
  }

  /** The white space of Unicode. */
  predicate WhiteSpace(p: nat)
  {
    || 9 <= p <= 13 || p == 0x20 || p == 0x85 || p == 0xA0 || p == 0x1680 || 0x2000 <= p <= 0x200A
    || p == 0x2028 || p == 0x2029 || p == 0x202F || p == 0x205F || p == 0x3000
  }

  /** An encoded code point is taken for space exactly when it is white space. */
  lemma SpacesExactly(p: nat)
    requires Scalar(p)
    ensures SpaceAt(Encode(p), 0, |Encode(p)|) <==> WhiteSpace(p)
  {
    if 0x800 <= p < 0x10000 {
      ThreeBytes(p);
    }
  }

  lemma ThreeBytes(p: nat)
    requires 0x800 <= p < 0x10000
    ensures p == 4096 * (p / 4096) + 64 * (p / 64 % 64) + p % 64
  {
    assert p / 64 / 64 == p / 4096;
  }
}

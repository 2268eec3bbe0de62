/** The binary rule file: magic, version, rule count, and each rule's canonical text
    behind its length, all numbers little-endian. */
module BinaryFiles {

  import opened Wrappers
  import opened ByteStrings
  import opened Elements
  import opened Parsing

  const MAGIC: Bytes := [83, 80, 79, 67, 80]
  const VERSION: byte := 1
  const MAX_UINT32 := 0xFFFF_FFFF

  // -------------------------------------------------------------- 32-bit numbers

  /** The number in so many bytes, least significant first. */
  function LittleEndian(n: nat, width: nat): (s: Bytes)
    ensures |s| == width
  {
    if width == 0 then [] else [(n % 256) as byte] + LittleEndian(n / 256, width - 1)
  }

  function FromLittleEndian(s: Bytes): nat
  {
    if s == [] then 0 else s[0] as nat + 256 * FromLittleEndian(s[1..])
  }

  function Range256(width: nat): nat
  {
    if width == 0 then 1 else 256 * Range256(width - 1)
  }

  lemma {:induction false} LittleEndianRoundTrip(n: nat, width: nat)
    requires n < Range256(width)
    ensures FromLittleEndian(LittleEndian(n, width)) == n
  {
    if width > 0 {
      LittleEndianRoundTrip(n / 256, width - 1);
      assert LittleEndian(n, width)[1..] == LittleEndian(n / 256, width - 1);
    }
  }

  function LE32(n: nat): (s: Bytes)
    ensures |s| == 4
  {
    LittleEndian(n, 4)
  }

  lemma LE32RoundTrip(n: nat)
    requires n <= MAX_UINT32
    ensures FromLittleEndian(LE32(n)) == n
  {
    assert Range256(4) == 0x1_0000_0000;
    LittleEndianRoundTrip(n, 4);
  }

  lemma {:induction false} LittleEndianOnto(s: Bytes)
    ensures FromLittleEndian(s) < Range256(|s|) && LittleEndian(FromLittleEndian(s), |s|) == s
  {
    if s != [] {
      LittleEndianOnto(s[1..]);
      SplitByte(s[0], FromLittleEndian(s[1..]), Range256(|s| - 1));
      assert s == [s[0]] + s[1..];
    }
  }

  lemma SplitByte(b: byte, n: nat, range: nat)
    requires n < range
    ensures (b as nat + 256 * n) % 256 == b as nat && (b as nat + 256 * n) / 256 == n
    ensures b as nat + 256 * n < 256 * range
  {
  }

  /** Every four bytes are a number's. */
  lemma LE32Onto(s: Bytes)
    requires |s| == 4
    ensures FromLittleEndian(s) <= MAX_UINT32 && LE32(FromLittleEndian(s)) == s
  {
    LittleEndianOnto(s);
    assert Range256(4) == 0x1_0000_0000;
  }

  /** Least significant byte first. */
  lemma LE32Bytes(n: nat)
    requires n <= MAX_UINT32
    ensures LE32(n) == [(n % 256) as byte, (n / 256 % 256) as byte, (n / 65536 % 256) as byte, (n / 16777216) as byte]
  {
    var a, b, c := n / 256, n / 256 / 256, n / 256 / 256 / 256;
    assert b == n / 65536 && c == n / 16777216 && c % 256 == c;
    assert LittleEndian(c, 1) == [c as byte] + LittleEndian(c / 256, 0);
    assert LittleEndian(b, 2) == [(b % 256) as byte] + LittleEndian(c, 1);
    assert LittleEndian(a, 3) == [(a % 256) as byte] + LittleEndian(b, 2);
  }

  // ---------------------------------------------------------------------- saving

  /** One rule behind its length; too long a rule is an error. */
  function SerializedRule(rule: Element): Outcome<Bytes>
  {
    var text := Canonical(rule);
    if |text| > MAX_UINT32 then Failed else Done(LE32(|text|) + text)
  }

  function SerializedRules(rules: seq<Element>): Outcome<Bytes>
  {
    if rules == [] then Done([])
    else
      match SerializedRule(rules[0])
      case Done(first) => Prepend(first, SerializedRules(rules[1..]))
      case bad => bad
  }

  function Saved(rules: seq<Element>): Outcome<Bytes>
  {
    if |rules| > MAX_UINT32 then Failed
    else
      match SerializedRules(rules)
      case Done(body) => Done(MAGIC + [VERSION] + LE32(|rules|) + body)
      case _ => Failed
  }

  method SaveBinary(rules: seq<Element>) returns (r: Outcome<Bytes>)
    ensures r == Saved(rules)
  {
    var header := MAGIC;
    header := header + [VERSION];
    if |rules| > MAX_UINT32 {
      return Failed;
    }
    header := header + LE32(|rules|);
    var body: Bytes := [];
    PrependTwice([], [], SerializedRules(rules));
    for i := 0 to |rules|
      invariant SerializedRules(rules) == Prepend(body, SerializedRules(rules[i..]))
    {
      assert rules[i..][1..] == rules[i + 1..];
      var data := String(rules[i]);
      if |data| > MAX_UINT32 {
        return Failed;
      }
      PrependTwice(body, LE32(|data|) + data, SerializedRules(rules[i + 1..]));
      body := body + (LE32(|data|) + data);
    }
    assert body + [] == body;
    r := Done(header + body);
  }

  // --------------------------------------------------------------------- loading

  /** The next length and its data. */
  function Chunk(s: Bytes): Option<(Bytes, Bytes)>
  {
    if |s| < 4 then None
    else
      var length := FromLittleEndian(s[..4]);
      if |s| - 4 < length then None else Some((s[4..][..length], s[4..][length..]))
  }

  function LoadRules(s: Bytes, count: nat): Outcome<seq<Element>>
  {
    if count == 0 then Done([])
    else
      match Chunk(s)
      case None => Failed
      case Some((data, rest)) =>
        match ParseText(data)
        case Malformed => Failed
        case Panics => Crashed
        case Parsed(rule, _) => Prepend([rule], LoadRules(rest, count - 1))
  }

  function Loaded(s: Bytes): Outcome<seq<Element>>
  {
    if |s| < 5 || s[..5] != MAGIC then Failed
    else if |s| < 6 || s[5] != VERSION then Failed
    else if |s| < 10 then Failed
    else LoadRules(s[10..], FromLittleEndian(s[6..10]))
  }

  method LoadBinary(input: Bytes) returns (r: Outcome<seq<Element>>)
    ensures r == Loaded(input)
  {
    if |input| < 5 || input[..5] != MAGIC {
      return Failed;
    }
    if |input| < 6 || input[5] != VERSION {
      return Failed;
    }
    if |input| < 10 {
      return Failed;
    }
    r := LoadBody(input[10..], FromLittleEndian(input[6..10]));
  }

  /** The loop over the rules behind the header. */
  method LoadBody(body: Bytes, count: nat) returns (r: Outcome<seq<Element>>)
    ensures r == LoadRules(body, count)
  {
    var rules: seq<Element>, unread := [], body;
    PrependTwice([], [], LoadRules(unread, count));
    for i := 0 to count
      invariant LoadRules(body, count) == Prepend(rules, LoadRules(unread, count - i))
    {
      var chunk := Chunk(unread);
      if chunk.None? {
        return Failed;
      }
      var parser := new Parser(chunk.value.0);
      var elem := parser.Parse();
      if elem.Malformed? {
        return Failed;
      }
      if elem.Panics? {
        return Crashed;
      }
      unread := chunk.value.1;
      PrependTwice(rules, [elem.value], LoadRules(unread, count - i - 1));
      rules := rules + [elem.value];
    }
    assert rules + [] == rules;
    r := Done(rules);
  }

  // ------------------------------------------------------------------ round trip

  lemma ChunkOfRule(rule: Element, rest: Bytes)
    requires SerializedRule(rule).Done?
    ensures Chunk(SerializedRule(rule).value + rest) == Some((Canonical(rule), rest))
  {
    var text := Canonical(rule);
    var s := SerializedRule(rule).value + rest;
    LE32RoundTrip(|text|);
    assert s[..4] == LE32(|text|) && s[4..] == text + rest;
    assert (text + rest)[..|text|] == text && (text + rest)[|text|..] == rest;
  }

  lemma LoadStep(rule: Element, rest: Bytes, count: nat)
    requires SerializedRule(rule).Done?
    ensures LoadRules(SerializedRule(rule).value + rest, count + 1) == Prepend([Demote(rule)], LoadRules(rest, count))
  {
    ChunkOfRule(rule, rest);
    assert Canonical(rule) + [] == Canonical(rule);
    PrintedReadsDemoted(rule, []);
  }

  lemma {:induction false} LoadsSaved(rules: seq<Element>, rest: Bytes)
    requires SerializedRules(rules).Done?
    ensures LoadRules(SerializedRules(rules).value + rest, |rules|) == Done(DemoteAll(rules))
  {
    if rules == [] {
      assert DemoteAll(rules) == [];
    } else {
      var first, others := SerializedRule(rules[0]).value, SerializedRules(rules[1..]).value;
      assert first + others + rest == first + (others + rest);
      LoadStep(rules[0], others + rest, |rules| - 1);
      LoadsSaved(rules[1..], rest);
      assert [Demote(rules[0])] + DemoteAll(rules[1..]) == DemoteAll(rules);
    }
  }

  lemma HeaderParts(magic: Bytes, version: byte, count: Bytes, body: Bytes)
    requires |magic| == 5 && |count| == 4
    ensures var s := magic + [version] + count + body;
            |s| == 10 + |body| && s[..5] == magic && s[5] == version && s[6..10] == count && s[10..] == body
  {
  }

  lemma LoadedParts(count: Bytes, body: Bytes, rest: Bytes)
    requires |count| == 4
    ensures Loaded(MAGIC + [VERSION] + count + body + rest) == LoadRules(body + rest, FromLittleEndian(count))
  {
    HeaderParts(MAGIC, VERSION, count, body + rest);
    assert MAGIC + [VERSION] + count + body + rest == MAGIC + [VERSION] + count + (body + rest);
  }

  lemma LoadedSaved(rules: seq<Element>, rest: Bytes)
    requires Saved(rules).Done?
    ensures Loaded(Saved(rules).value + rest) == Done(DemoteAll(rules))
  {
    LoadedParts(LE32(|rules|), SerializedRules(rules).value, rest);
    LE32RoundTrip(|rules|);
    LoadsSaved(rules, rest);
  }

  /** Whatever saves, loads: the rules come back in order with their star forms demoted,
      so the file restores the rule set exactly when every rule is simple. */
  lemma BinaryRoundTripExactly(rules: seq<Element>, rest: Bytes)
    requires Saved(rules).Done?
    ensures Loaded(Saved(rules).value + rest) == Done(DemoteAll(rules))
    ensures Loaded(Saved(rules).value + rest) == Done(rules) <==> Simple(rules)
  {
    LoadedSaved(rules, rest);
    DemoteAllFixpoint(rules);
  }

  // ----------------------------------------------------------------- single rules

  /** DeserializeRule: one chunk, parsed. */
  function Deserialized(s: Bytes): Outcome<Element>
  {
    match Chunk(s)
    case None => Failed
    case Some((data, _)) =>
      match ParseText(data)
      case Parsed(rule, _) => Done(rule)
      case Malformed => Failed
      case Panics => Crashed
  }

  lemma RuleRoundTripExactly(rule: Element, rest: Bytes)
    requires SerializedRule(rule).Done?
    ensures Deserialized(SerializedRule(rule).value + rest) == Done(rule) <==> StarFree(rule)
  {
    ChunkOfRule(rule, rest);
    assert Canonical(rule) + [] == Canonical(rule);
    PrintedReadsDemoted(rule, []);
    DemoteFixpoint(rule);
  }

  // ------------------------------------------------------------- what loads at all

  /** The chunks of a file's body, each behind its length. */
  function Chunks(cs: seq<Bytes>): Bytes
  {
    if cs == [] then [] else LE32(|cs[0]|) + cs[0] + Chunks(cs[1..])
  }

  predicate Short(cs: seq<Bytes>)
  {
    forall i :: 0 <= i < |cs| ==> |cs[i]| <= MAX_UINT32
  }

  /** The chunks parse to the rules, one by one. */
  predicate ParseTo(cs: seq<Bytes>, rules: seq<Element>)
  {
    && |cs| == |rules|
    && forall i :: 0 <= i < |cs| ==> ParseText(cs[i]).Parsed? && ParseText(cs[i]).value == rules[i]
  }

  lemma ChunkAt(c: Bytes, rest: Bytes)
    requires |c| <= MAX_UINT32
    ensures Chunk(LE32(|c|) + c + rest) == Some((c, rest))
  {
    var s := LE32(|c|) + c + rest;
    LE32RoundTrip(|c|);
    assert s[..4] == LE32(|c|) && s[4..] == c + rest;
    assert (c + rest)[..|c|] == c && (c + rest)[|c|..] == rest;
  }

  lemma ChunkIs(s: Bytes)
    requires Chunk(s).Some?
    ensures var (c, rest) := Chunk(s).value; |c| <= MAX_UINT32 && s == LE32(|c|) + c + rest
  {
    LE32Onto(s[..4]);
    var (c, rest) := Chunk(s).value;
    assert s[4..] == c + rest;
    assert s == s[..4] + s[4..];
  }

  lemma ChunkLoads(c: Bytes, rest: Bytes, count: nat)
    requires |c| <= MAX_UINT32 && ParseText(c).Parsed?
    ensures LoadRules(LE32(|c|) + c + rest, count + 1) == Prepend([ParseText(c).value], LoadRules(rest, count))
  {
    ChunkAt(c, rest);
  }

  /** A body of so many chunks, and more behind it, loads as what the chunks parse to. */
  lemma {:induction false} ChunksLoad(cs: seq<Bytes>, tail: Bytes, rules: seq<Element>)
    requires Short(cs) && ParseTo(cs, rules)
    ensures LoadRules(Chunks(cs) + tail, |cs|) == Done(rules)
  {
    if cs != [] {
      Regroup(LE32(|cs[0]|) + cs[0], Chunks(cs[1..]), tail);
      ChunkLoads(cs[0], Chunks(cs[1..]) + tail, |cs| - 1);
      assert forall i :: 0 <= i < |cs| - 1 ==> cs[1..][i] == cs[i + 1] && rules[1..][i] == rules[i + 1];
      ChunksLoad(cs[1..], tail, rules[1..]);
      assert rules == [rules[0]] + rules[1..];
    }
  }

  lemma {:induction false} LoadedChunks(s: Bytes, count: nat) returns (cs: seq<Bytes>, tail: Bytes)
    requires LoadRules(s, count).Done?
    ensures |cs| == count && Short(cs) && s == Chunks(cs) + tail && ParseTo(cs, LoadRules(s, count).value)
    decreases count
  {
    if count == 0 {
      cs, tail := [], s;
      assert Chunks(cs) + tail == s;
    } else {
      var (c, rest) := Chunk(s).value;
      ChunkIs(s);
      var more;
      more, tail := LoadedChunks(rest, count - 1);
      cs := [c] + more;
      assert cs[1..] == more;
      Regroup(LE32(|c|) + c, Chunks(more), tail);
    }
  }

  /** The file is the magic, the version, a count, so many chunks that parse to the rules,
      and anything behind them. */
  ghost predicate FileOf(s: Bytes, rules: seq<Element>)
  {
    exists cs, tail ::
      && |cs| <= MAX_UINT32 && Short(cs) && ParseTo(cs, rules)
      && s == Ascii("SPOCP") + [1] + LE32(|cs|) + (Chunks(cs) + tail)
  }

  lemma HeaderWords()
    ensures MAGIC == Ascii("SPOCP") && VERSION == 1
  {
  }

  lemma HeaderIs(s: Bytes, count: Bytes, body: Bytes)
    requires |count| == 4
    ensures s == MAGIC + [VERSION] + count + body <==>
            |s| >= 10 && s[..5] == MAGIC && s[5] == VERSION && s[6..10] == count && s[10..] == body
  {
    if |s| >= 10 && s[..5] == MAGIC && s[5] == VERSION && s[6..10] == count && s[10..] == body {
      assert s == s[..5] + [s[5]] + s[6..10] + s[10..];
    }
  }

  /** A binary file loads, as these rules, exactly when it is such a file of them. */
  lemma LoadsExactly(s: Bytes, rules: seq<Element>)
    ensures Loaded(s) == Done(rules) <==> FileOf(s, rules)
  {
    HeaderWords();
    if Loaded(s) == Done(rules) {
      LE32Onto(s[6..10]);
      var cs, tail := LoadedChunks(s[10..], FromLittleEndian(s[6..10]));
      HeaderIs(s, s[6..10], s[10..]);
    }
    if FileOf(s, rules) {
      var cs, tail :|
        |cs| <= MAX_UINT32 && Short(cs) && ParseTo(cs, rules) &&
        s == Ascii("SPOCP") + [1] + LE32(|cs|) + (Chunks(cs) + tail);
      HeaderIs(s, LE32(|cs|), Chunks(cs) + tail);
      LE32RoundTrip(|cs|);
      ChunksLoad(cs, tail, rules);
    }
  }

  /** A cut body lacks a chunk. */
  lemma {:induction false} CutChunks(cs: seq<Bytes>, s: Bytes)
    requires Short(cs) && s <= Chunks(cs) && s != Chunks(cs)
    ensures !LoadRules(s, |cs|).Done?
  {
    var c, rest := cs[0], Chunks(cs[1..]);
    if Chunk(s).Some? {
      CutBehindChunk(c, rest, s);
      CutChunks(cs[1..], Chunk(s).value.1);
    }
  }

  lemma CutBehindChunk(c: Bytes, rest: Bytes, s: Bytes)
    requires |c| <= MAX_UINT32 && s <= LE32(|c|) + c + rest && s != LE32(|c|) + c + rest && Chunk(s).Some?
    ensures Chunk(s).value.0 == c && Chunk(s).value.1 <= rest && Chunk(s).value.1 != rest
  {
    var whole := LE32(|c|) + c + rest;
    ChunkAt(c, rest);
    assert s[..4] == whole[..4] == LE32(|c|);
    assert whole[4..] == c + rest && s[4..] <= c + rest;
    assert s[4..][..|c|] == c;
    assert s == s[..4] + (c + s[4..][|c|..]);
  }

  function Texts(rules: seq<Element>): seq<Bytes>
  {
    seq(|rules|, i requires 0 <= i < |rules| => Canonical(rules[i]))
  }

  lemma ShortCons(c: Bytes, cs: seq<Bytes>)
    ensures Short([c] + cs) <==> |c| <= MAX_UINT32 && Short(cs)
  {
    var all := [c] + cs;
    assert all[0] == c && forall i :: 0 <= i < |cs| ==> cs[i] == all[i + 1];
  }

  lemma {:induction false} SerializedChunks(rules: seq<Element>)
    ensures SerializedRules(rules) == if Short(Texts(rules)) then Done(Chunks(Texts(rules))) else Failed
  {
    if rules != [] {
      SerializedChunks(rules[1..]);
      assert Texts(rules) == [Canonical(rules[0])] + Texts(rules[1..]);
      assert Texts(rules)[1..] == Texts(rules[1..]);
      ShortCons(Canonical(rules[0]), Texts(rules[1..]));
    }
  }

  /** Rules save exactly when they and each one's text can be counted in 32 bits, and then
      as such a file of their texts. */
  lemma SavesExactly(rules: seq<Element>)
    ensures Saved(rules) ==
            if |rules| <= MAX_UINT32 && Short(Texts(rules))
            then Done(Ascii("SPOCP") + [1] + LE32(|rules|) + Chunks(Texts(rules)))
            else Failed
  {
    HeaderWords();
    SerializedChunks(rules);
  }

  /** A saved file cut short anywhere does not load. */
  lemma CutFileFails(rules: seq<Element>, n: nat)
    requires Saved(rules).Done? && n < |Saved(rules).value|
    ensures !Loaded(Saved(rules).value[..n]).Done?
  {
    SavesExactly(rules);
    HeaderWords();
    var file, cs := Saved(rules).value, Texts(rules);
    var s := file[..n];
    if n >= 10 {
      HeaderIs(file, LE32(|rules|), Chunks(cs));
      assert s[6..10] == file[6..10];
      assert s[10..] == file[10..][..n - 10];
      LE32RoundTrip(|rules|);
      CutChunks(cs, s[10..]);
    }
  }

  /** A loaded file panics exactly when its first chunk that does not parse is bad. */
  lemma {:induction false} BodyPanicsExactly(s: Bytes, count: nat)
    ensures LoadRules(s, count).Crashed? <==> BadChunk(s, count)
    decreases count
  {
    if count > 0 && Chunk(s).Some? {
      var (c, rest) := Chunk(s).value;
      TextPanicsExactly(c);
      if ParseText(c).Parsed? {
        BodyPanicsExactly(rest, count - 1);
      }
    }
  }

  /** One of so many chunks is bad, and all before it parse. */
  predicate BadChunk(s: Bytes, count: nat)
    decreases count
  {
    count > 0 && Chunk(s).Some? &&
    (BadText(Chunk(s).value.0) || (ParseText(Chunk(s).value.0).Parsed? && BadChunk(Chunk(s).value.1, count - 1)))
  }

  /** A single rule loads exactly from a chunk that parses to it. */
  lemma DeserializesExactly(s: Bytes, rule: Element)
    ensures Deserialized(s) == Done(rule) <==>
            exists c, tail :: |c| <= MAX_UINT32 && s == LE32(|c|) + c + tail && ParseTo([c], [rule])
  {
    if Deserialized(s) == Done(rule) {
      ChunkIs(s);
      assert ParseTo([Chunk(s).value.0], [rule]);
    }
    if c, tail :| |c| <= MAX_UINT32 && s == LE32(|c|) + c + tail && ParseTo([c], [rule]) {
      ChunkAt(c, tail);
      assert ParseText([c][0]).value == [rule][0];
    }
  }
}

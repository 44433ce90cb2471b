/*
  The scanning tests of src/mem.rs, stated for any span that holds the
  test data.
*/
module ScannerExamples {
  import opened Wrappers
  import opened MemorySpan
  import opened Offsets
  import opened Patterns
  import opened Scanner

  /** The data of the `scan` test: the bytes 0 to 15 in order. */
  const SCAN_DATA: seq<Byte> := seq(16, k requires 0 <= k < 16 => k as Byte)

  /** The words of "0a ? 0C". */
  const SCAN_WORDS: seq<seq<Byte>> := [Ascii("0a"), Ascii("?"), Ascii("0C")]

  const SCAN_PATTERN := Pattern([Some(0x0A), None, Some(0x0C)])

  lemma ScanPatternText()
    ensures CompileMasked(Join(SCAN_WORDS)) == Success(SCAN_PATTERN)
  {
    var ws := SCAN_WORDS;
    assert Ascii("0a") == [0x30, 0x61] && Ascii("?") == [QUESTION] && Ascii("0C") == [0x30, 0x43];
    assert ws == [[0x30, 0x61], [QUESTION], [0x30, 0x43]];
    WordsOfJoin(ws);
    CompileTokenExamples();
    CompileTokens(ws);
    assert Compile(ws).value.mask == SCAN_PATTERN.mask;
  }

  /** The `scan` test: "0a ? 0C" is found at offset 10. */
  lemma ScanExample(s: Span)
    requires s.Valid() && s.bytes == SCAN_DATA
    ensures FirstMatch(s, SCAN_PATTERN) == Some(s.AddressOf(10))
  {
    var b := s.bytes;
    var p := SCAN_PATTERN;
    var hit := MatchHit(b, p);
    forall k | 0 <= k < 10 ensures !hit(k) {
      MismatchRulesOut(p, b, k, 0);
    }
    TokensMatchEvery(p.mask, b, 10);
    FirstAt(hit, 0, 13, 10);
  }

  /** The data of the `scan_all` test. */
  const SCAN_ALL_DATA: seq<Byte> := [0, 1, 2, 3, 42, 77, 0, 1, 2, 3, 5, 6, 7]

  /** The words of "00 ? ? 03". */
  const SCAN_ALL_WORDS: seq<seq<Byte>> := [Ascii("00"), Ascii("?"), Ascii("?"), Ascii("03")]

  const SCAN_ALL_PATTERN := Pattern([Some(0x00), None, None, Some(0x03)])

  lemma ScanAllPatternText()
    ensures CompileMasked(Join(SCAN_ALL_WORDS)) == Success(SCAN_ALL_PATTERN)
  {
    var ws := SCAN_ALL_WORDS;
    assert Ascii("00") == [0x30, 0x30] && Ascii("?") == [QUESTION] && Ascii("03") == [0x30, 0x33];
    assert ws == [[0x30, 0x30], [QUESTION], [QUESTION], [0x30, 0x33]];
    assert [0x30, 0x30][..1] == [0x30] && [0x30, 0x33][..1] == [0x30] && [0x30][..0] == [];
    assert CompileToken([0x30, 0x30]) == Success(Some(0x00));
    assert CompileToken([0x30, 0x33]) == Success(Some(0x03));
    WordsOfJoin(ws);
    CompileTokens(ws);
    assert Compile(ws).value.mask == SCAN_ALL_PATTERN.mask;
  }

  lemma ScanAllMismatches(b: seq<Byte>)
    requires b == SCAN_ALL_DATA
    ensures forall k :: 1 <= k < 6 || 6 < k < 9 ==> !MatchesAt(SCAN_ALL_PATTERN, b, k)
  {
    var p := SCAN_ALL_PATTERN;
    MismatchRulesOut(p, b, 1, 0);
    MismatchRulesOut(p, b, 2, 0);
    MismatchRulesOut(p, b, 3, 0);
    MismatchRulesOut(p, b, 4, 0);
    MismatchRulesOut(p, b, 5, 0);
    MismatchRulesOut(p, b, 7, 0);
    MismatchRulesOut(p, b, 8, 0);
  }

  lemma ScanAllOffsets(b: seq<Byte>)
    requires b == SCAN_ALL_DATA
    ensures Below(MatchHit(b, SCAN_ALL_PATTERN), 9) == [0, 6]
  {
    var hit := MatchHit(b, SCAN_ALL_PATTERN);
    ScanAllMismatches(b);
    assert hit(0) && hit(6);
    assert Below(hit, 1) == [0];
    BelowSkip(hit, 1, 6);
    assert Below(hit, 7) == [0, 6];
    BelowSkip(hit, 7, 9);
  }

  /** The `scan_all` test: "00 ? ? 03" is found at offsets 0 and 6. */
  lemma ScanAllExample(s: Span)
    requires s.Valid() && s.bytes == SCAN_ALL_DATA
    ensures AllMatches(s, SCAN_ALL_PATTERN) == [s.base, s.AddressOf(6)]
  {
    assert |s.bytes| - |SCAN_ALL_PATTERN.mask| == 9;
    ScanAllOffsets(s.bytes);
    AddressesOfTwo(s, 0, 6);
  }

  /** The bytes of "Hello, world!". */
  const HELLO_WORLD: seq<Byte> := [0x48, 0x65, 0x6C, 0x6C, 0x6F, 0x2C, 0x20, 0x77, 0x6F, 0x72, 0x6C, 0x64, 0x21]

  /** The bytes of "world". */
  const WORLD: seq<Byte> := [0x77, 0x6F, 0x72, 0x6C, 0x64]

  lemma HelloWorldText()
    ensures Ascii("Hello, world!") == HELLO_WORLD && Ascii("world") == WORLD
  {
  }

  /** The `scan_str` test: "world" is found at offset 7 of "Hello, world!",
      which is also the last offset the scan tries. */
  lemma ScanStrExample(s: Span)
    requires s.Valid() && s.bytes == HELLO_WORLD
    ensures FirstMatch(s, Literal(WORLD)) == Some(s.AddressOf(7))
  {
    var b := s.bytes;
    var t := WORLD;
    var p := Literal(t);
    var hit := MatchHit(b, p);
    assert p.mask[0] == Some(0x77);
    MismatchRulesOut(p, b, 0, 0);
    MismatchRulesOut(p, b, 1, 0);
    MismatchRulesOut(p, b, 2, 0);
    MismatchRulesOut(p, b, 3, 0);
    MismatchRulesOut(p, b, 4, 0);
    MismatchRulesOut(p, b, 5, 0);
    MismatchRulesOut(p, b, 6, 0);
    LiteralMatchesExactly(t, b, 7);
    assert b[7..12] == t;
    FirstAt(hit, 0, 8, 7);
  }

  /** The bytes of "Hello, world! Hello, moon!". */
  const HELLO_TWICE: seq<Byte> :=
    [0x48, 0x65, 0x6C, 0x6C, 0x6F, 0x2C, 0x20, 0x77, 0x6F, 0x72, 0x6C, 0x64, 0x21,
     0x20, 0x48, 0x65, 0x6C, 0x6C, 0x6F, 0x2C, 0x20, 0x6D, 0x6F, 0x6F, 0x6E, 0x21]

  /** The bytes of "Hello". */
  const HELLO: seq<Byte> := [0x48, 0x65, 0x6C, 0x6C, 0x6F]

  lemma HelloTwiceText()
    ensures Ascii("Hello, world! Hello, moon!") == HELLO_TWICE && Ascii("Hello") == HELLO
  {
  }

  lemma HelloMismatches(b: seq<Byte>)
    requires b == HELLO_TWICE
    ensures forall k :: 1 <= k < 14 || 14 < k < 21 ==> !MatchesAt(Literal(HELLO), b, k)
  {
    var p := Literal(HELLO);
    assert p.mask[0] == Some(0x48);
    MismatchRulesOut(p, b, 1, 0);
    MismatchRulesOut(p, b, 2, 0);
    MismatchRulesOut(p, b, 3, 0);
    MismatchRulesOut(p, b, 4, 0);
    MismatchRulesOut(p, b, 5, 0);
    MismatchRulesOut(p, b, 6, 0);
    MismatchRulesOut(p, b, 7, 0);
    MismatchRulesOut(p, b, 8, 0);
    MismatchRulesOut(p, b, 9, 0);
    MismatchRulesOut(p, b, 10, 0);
    MismatchRulesOut(p, b, 11, 0);
    MismatchRulesOut(p, b, 12, 0);
    MismatchRulesOut(p, b, 13, 0);
    MismatchRulesOut(p, b, 15, 0);
    MismatchRulesOut(p, b, 16, 0);
    MismatchRulesOut(p, b, 17, 0);
    MismatchRulesOut(p, b, 18, 0);
    MismatchRulesOut(p, b, 19, 0);
    MismatchRulesOut(p, b, 20, 0);
  }

  lemma ScanAllStrOffsets(b: seq<Byte>)
    requires b == HELLO_TWICE
    ensures Below(MatchHit(b, Literal(HELLO)), 21) == [0, 14]
  {
    var hit := MatchHit(b, Literal(HELLO));
    HelloMismatches(b);
    LiteralMatchesExactly(HELLO, b, 0);
    LiteralMatchesExactly(HELLO, b, 14);
    assert b[0..5] == HELLO && b[14..19] == HELLO;
    assert Below(hit, 1) == [0];
    BelowSkip(hit, 1, 14);
    assert Below(hit, 15) == [0, 14];
    BelowSkip(hit, 15, 21);
  }

  /** The `scan_all_str` test: "Hello" is found at offsets 0 and 14 of
      "Hello, world! Hello, moon!". */
  lemma ScanAllStrExample(s: Span)
    requires s.Valid() && s.bytes == HELLO_TWICE
    ensures AllMatches(s, Literal(HELLO)) == [s.base, s.AddressOf(14)]
  {
    assert |s.bytes| - |Literal(HELLO).mask| == 21;
    ScanAllStrOffsets(s.bytes);
    AddressesOfTwo(s, 0, 14);
  }
}

/*
  Byte patterns (`Pattern` in src/mem.rs): a sequence of tokens, each either
  a byte that must match exactly or a wildcard that matches any byte.

  `Pattern::new` compiles a masked pattern written as whitespace-separated
  hexadecimal tokens ("0a ? 0C"); `Pattern::from_str` and `TryFrom<&str>`
  take every byte of a string literally. Text is modelled as its UTF-8
  bytes, which is what `split_ascii_whitespace`, `u8::from_str_radix` and
  `str::bytes` all work on.
*/
module Patterns {
  import opened Wrappers
  import opened MemorySpan

  /** One position of a pattern: `Some(b)` matches exactly `b`, `None` any byte. */
  type Token = Option<Byte>

  /** `struct Pattern(Vec<Option<u8>>)`. */
  datatype Pattern = Pattern(mask: seq<Token>)

  const SPACE: Byte := 0x20
  const PLUS: Byte := 0x2B
  const MINUS: Byte := 0x2D
  const QUESTION: Byte := 0x3F

  /** The ASCII text of a string literal, for stating examples. */
  function Ascii(s: string): (r: seq<Byte>)
    requires forall k :: 0 <= k < |s| ==> s[k] < 128 as char
    ensures |r| == |s| && forall k :: 0 <= k < |s| ==> r[k] as int == s[k] as int
  {
    seq(|s|, k requires 0 <= k < |s| => s[k] as int as Byte)
  }

  // ---------------------------------------------------------------------
  // split_ascii_whitespace
  // ---------------------------------------------------------------------

  /** The bytes `split_ascii_whitespace` splits on: space, tab, line feed,
      form feed and carriage return (not vertical tab). */
  predicate IsAsciiWhitespace(c: Byte) {
    c == 0x20 || c == 0x09 || c == 0x0A || c == 0x0C || c == 0x0D
  }

  /** A non-empty run of non-whitespace bytes. */
  predicate IsWord(w: seq<Byte>) {
    |w| > 0 && forall k :: 0 <= k < |w| ==> !IsAsciiWhitespace(w[k])
  }

  function Flush(cur: seq<Byte>): seq<seq<Byte>> {
    if cur == [] then [] else [cur]
  }

  /** The words of `t`, after the partial word `cur` already read. */
  function Split(t: seq<Byte>, cur: seq<Byte>): seq<seq<Byte>>
    decreases |t|
  {
    if t == [] then Flush(cur)
    else if IsAsciiWhitespace(t[0]) then Flush(cur) + Split(t[1..], [])
    else Split(t[1..], cur + [t[0]])
  }

  /** `t.split_ascii_whitespace()`: the maximal runs of non-whitespace
      bytes, in order, with empty pieces dropped. */
  function Words(t: seq<Byte>): seq<seq<Byte>> {
    Split(t, [])
  }

  /** The non-whitespace bytes of `t`, in order. */
  function NonWhitespace(t: seq<Byte>): seq<Byte> {
    if t == [] then []
    else if IsAsciiWhitespace(t[0]) then NonWhitespace(t[1..])
    else [t[0]] + NonWhitespace(t[1..])
  }

  function Concat(ws: seq<seq<Byte>>): seq<Byte> {
    if ws == [] then [] else ws[0] + Concat(ws[1..])
  }

  /** The words separated by single spaces. */
  function Join(ws: seq<seq<Byte>>): seq<Byte> {
    if |ws| == 0 then []
    else if |ws| == 1 then ws[0]
    else ws[0] + [SPACE] + Join(ws[1..])
  }

  lemma {:induction false} SplitYieldsWords(t: seq<Byte>, cur: seq<Byte>)
    requires forall k :: 0 <= k < |cur| ==> !IsAsciiWhitespace(cur[k])
    ensures forall w :: w in Split(t, cur) ==> IsWord(w)
    decreases |t|
  {
    if t == [] {
    } else if IsAsciiWhitespace(t[0]) {
      SplitYieldsWords(t[1..], []);
    } else {
      SplitYieldsWords(t[1..], cur + [t[0]]);
    }
  }

  /** Every piece `split_ascii_whitespace` yields is non-empty and holds no
      whitespace. */
  lemma WordsAreWords(t: seq<Byte>)
    ensures forall w :: w in Words(t) ==> IsWord(w)
  {
    SplitYieldsWords(t, []);
  }

  lemma {:induction false} ConcatAppend(a: seq<seq<Byte>>, b: seq<seq<Byte>>)
    ensures Concat(a + b) == Concat(a) + Concat(b)
  {
    if a != [] {
      assert (a + b)[0] == a[0];
      assert (a + b)[1..] == a[1..] + b;
      ConcatAppend(a[1..], b);
      calc {
        Concat(a + b);
        a[0] + Concat(a[1..] + b);
        a[0] + (Concat(a[1..]) + Concat(b));
        (a[0] + Concat(a[1..])) + Concat(b);
      }
    } else {
      assert a + b == b;
    }
  }

  lemma {:induction false} SplitKeepsBytes(t: seq<Byte>, cur: seq<Byte>)
    ensures Concat(Split(t, cur)) == cur + NonWhitespace(t)
    decreases |t|
  {
    if t == [] {
      ConcatFlush(cur);
    } else if IsAsciiWhitespace(t[0]) {
      SplitKeepsBytes(t[1..], []);
      ConcatAppend(Flush(cur), Split(t[1..], []));
      ConcatFlush(cur);
      assert Concat(Split(t, cur)) == cur + ([] + NonWhitespace(t[1..]));
    } else {
      SplitKeepsBytes(t[1..], cur + [t[0]]);
      assert Concat(Split(t, cur)) == (cur + [t[0]]) + NonWhitespace(t[1..]);
      assert NonWhitespace(t) == [t[0]] + NonWhitespace(t[1..]);
    }
  }

  lemma ConcatFlush(cur: seq<Byte>)
    ensures Concat(Flush(cur)) == cur
  {
    if cur != [] {
      assert [cur][1..] == [];
    }
  }

  /** Splitting loses no byte but whitespace: the words, put back together,
      are the non-whitespace bytes of the text in order. */
  lemma WordsKeepBytes(t: seq<Byte>)
    ensures Concat(Words(t)) == NonWhitespace(t)
  {
    SplitKeepsBytes(t, []);
  }

  lemma {:induction false} SplitAcross(a: seq<Byte>, c: Byte, b: seq<Byte>, cur: seq<Byte>)
    requires IsAsciiWhitespace(c)
    ensures Split(a + [c] + b, cur) == Split(a, cur) + Split(b, [])
    decreases |a|
  {
    if a == [] {
      assert a + [c] + b == [c] + b;
      assert ([c] + b)[1..] == b;
    } else {
      assert (a + [c] + b)[0] == a[0];
      assert (a + [c] + b)[1..] == a[1..] + [c] + b;
      if IsAsciiWhitespace(a[0]) {
        SplitAcross(a[1..], c, b, []);
      } else {
        SplitAcross(a[1..], c, b, cur + [a[0]]);
      }
    }
  }

  /** A whitespace byte separates: the words on either side of it are split
      independently. */
  lemma WordsAcross(a: seq<Byte>, c: Byte, b: seq<Byte>)
    requires IsAsciiWhitespace(c)
    ensures Words(a + [c] + b) == Words(a) + Words(b)
  {
    SplitAcross(a, c, b, []);
  }

  lemma {:induction false} SplitWord(w: seq<Byte>, cur: seq<Byte>)
    requires forall k :: 0 <= k < |w| ==> !IsAsciiWhitespace(w[k])
    ensures Split(w, cur) == Flush(cur + w)
    decreases |w|
  {
    if w == [] {
      assert cur + w == cur;
    } else {
      assert cur + [w[0]] + w[1..] == cur + w;
      SplitWord(w[1..], cur + [w[0]]);
    }
  }

  /** Round trip: splitting words joined by spaces gives the words back. */
  lemma {:induction false} WordsOfJoin(ws: seq<seq<Byte>>)
    requires forall k :: 0 <= k < |ws| ==> IsWord(ws[k])
    ensures Words(Join(ws)) == ws
  {
    if |ws| == 0 {
    } else if |ws| == 1 {
      SplitWord(ws[0], []);
      assert [] + ws[0] == ws[0];
    } else {
      SplitWord(ws[0], []);
      assert [] + ws[0] == ws[0];
      WordsAcross(ws[0], SPACE, Join(ws[1..]));
      WordsOfJoin(ws[1..]);
      assert ws == [ws[0]] + ws[1..];
    }
  }

  // ---------------------------------------------------------------------
  // u8::from_str_radix(_, 16)
  // ---------------------------------------------------------------------

  /** The kinds of `ParseIntError` that `u8::from_str_radix` reports. */
  datatype IntErrorKind = Empty | InvalidDigit | PosOverflow

  /** `char::to_digit(16)` of a byte: 0-9, a-f and A-F. */
  function HexDigit(c: Byte): (d: Option<nat>)
    ensures d.Some? ==> d.value < 16
  {
    if 0x30 <= c <= 0x39 then Some(c as int - 0x30)
    else if 0x61 <= c <= 0x66 then Some(c as int - 0x61 + 10)
    else if 0x41 <= c <= 0x46 then Some(c as int - 0x41 + 10)
    else None
  }

  /** The upper-case hexadecimal digit for `v`. */
  function UpperHexChar(v: nat): Byte
    requires v < 16
  {
    if v < 10 then (0x30 + v) as Byte else (0x41 + v - 10) as Byte
  }

  /** The lower-case hexadecimal digit for `v`. */
  function LowerHexChar(v: nat): Byte
    requires v < 16
  {
    if v < 10 then (0x30 + v) as Byte else (0x61 + v - 10) as Byte
  }

  /** Digits are read case-insensitively, and only the 22 hexadecimal
      digit characters are digits. */
  lemma HexDigitCases(v: nat, c: Byte)
    requires v < 16
    ensures HexDigit(UpperHexChar(v)) == Some(v) && HexDigit(LowerHexChar(v)) == Some(v)
    ensures HexDigit(c) == Some(v) <==> c == UpperHexChar(v) || c == LowerHexChar(v)
  {
  }

  predicate AllHex(d: seq<Byte>) {
    forall k :: 0 <= k < |d| ==> HexDigit(d[k]).Some?
  }

  /** The number `d` denotes in base 16, most significant digit first. */
  function HexValue(d: seq<Byte>): nat
    requires AllHex(d)
  {
    if d == [] then 0 else HexValue(d[..|d| - 1]) * 16 + HexDigit(d[|d| - 1]).value
  }

  /** The digit loop of `from_str_radix`, left to right: a non-digit is
      `InvalidDigit`; a digit that takes the value past 255 is
      `PosOverflow`; the first problem met is the one reported. (For at most
      two digits std skips the overflow checks, which cannot fire there.) */
  function ParseDigits(d: seq<Byte>): (r: Result<Byte, IntErrorKind>)
    ensures r.Failure? ==> r.error != Empty
  {
    if d == [] then Success(0)
    else
      var acc := ParseDigits(d[..|d| - 1]);
      if acc.Failure? then acc
      else
        var x := HexDigit(d[|d| - 1]);
        if x.None? then Failure(InvalidDigit)
        else if acc.value as int * 16 + x.value < 0x100 then Success((acc.value as int * 16 + x.value) as Byte)
        else Failure(PosOverflow)
  }

  /** `u8::from_str_radix(src, 16)`: an empty string is `Empty`; a lone
      sign is `InvalidDigit`; one leading `+` is skipped; `-` is a non-digit. */
  function FromStrRadix16(src: seq<Byte>): (r: Result<Byte, IntErrorKind>)
    ensures r.Failure? && r.error == Empty <==> src == []
  {
    if src == [] then Failure(Empty)
    else if (src[0] == PLUS || src[0] == MINUS) && |src| == 1 then Failure(InvalidDigit)
    else if src[0] == PLUS then ParseDigits(src[1..])
    else ParseDigits(src)
  }

  /** The digits `from_str_radix` reads: all of `src` but one leading `+`. */
  function Unsigned(src: seq<Byte>): seq<Byte> {
    if |src| > 1 && src[0] == PLUS then src[1..] else src
  }

  lemma {:induction false} ParseDigitsValue(d: seq<Byte>)
    ensures ParseDigits(d).Success? <==> AllHex(d) && HexValue(d) < 0x100
    ensures ParseDigits(d).Success? ==> ParseDigits(d).value as int == HexValue(d)
  {
    if d != [] {
      var p := d[..|d| - 1];
      ParseDigitsValue(p);
      assert AllHex(d) ==> AllHex(p) by {
        if AllHex(d) {
          forall k | 0 <= k < |p| ensures HexDigit(p[k]).Some? {
            assert p[k] == d[k];
          }
        }
      }
      assert AllHex(p) && HexDigit(d[|d| - 1]).Some? ==> AllHex(d) by {
        if AllHex(p) && HexDigit(d[|d| - 1]).Some? {
          forall k | 0 <= k < |d| ensures HexDigit(d[k]).Some? {
            if k < |p| { assert d[k] == p[k]; }
          }
        }
      }
    }
  }

  /** `from_str_radix(src, 16)` succeeds exactly when what follows the
      optional `+` is a non-empty run of hexadecimal digits worth at most
      255 (any number of leading zeros allowed), and then yields that value. */
  lemma FromStrRadix16Value(src: seq<Byte>)
    ensures FromStrRadix16(src).Success? <==>
      var d := Unsigned(src); |d| > 0 && AllHex(d) && HexValue(d) < 0x100
    ensures FromStrRadix16(src).Success? ==> FromStrRadix16(src).value as int == HexValue(Unsigned(src))
  {
    ParseDigitsValue(Unsigned(src));
    if |src| == 1 && (src[0] == PLUS || src[0] == MINUS) {
      assert !AllHex(src) by { assert HexDigit(src[0]).None?; }
    }
  }

  /** The error kinds on inputs with no digit or a sign. */
  lemma FromStrRadix16SignErrors()
    ensures FromStrRadix16([]) == Failure(Empty)
    ensures FromStrRadix16([PLUS]) == Failure(InvalidDigit)
    ensures FromStrRadix16([MINUS]) == Failure(InvalidDigit)
    ensures FromStrRadix16([MINUS, 0x31]) == Failure(InvalidDigit)
    ensures FromStrRadix16([PLUS, 0x46, 0x46]) == Success(0xFF)
  {
    assert [MINUS, 0x31][..1] == [MINUS];
    assert [MINUS][..0] == [];
    assert ParseDigits([MINUS]) == Failure(InvalidDigit);
    assert [PLUS, 0x46, 0x46][1..] == [0x46, 0x46];
    assert [0x46, 0x46][..1] == [0x46];
    assert [0x46][..0] == [];
  }

  /** "100" does not fit in a byte. */
  lemma FromStrRadix16Overflow()
    ensures FromStrRadix16(Ascii("100")) == Failure(PosOverflow)
  {
    var d := Ascii("100");
    assert d == [0x31, 0x30, 0x30];
    assert d[..2] == [0x31, 0x30];
    assert d[..2][..1] == [0x31];
    assert d[..2][..1][..0] == [];
    assert ParseDigits([0x31]) == Success(0x01);
    assert ParseDigits([0x31, 0x30]) == Success(0x10);
  }

  /** The first problem from the left is the one reported: in "100G" the
      overflow comes before the bad digit. */
  lemma FromStrRadix16OverflowFirst()
    ensures FromStrRadix16(Ascii("100G")) == Failure(PosOverflow)
  {
    var d := Ascii("100G");
    assert d == [0x31, 0x30, 0x30, 0x47];
    assert d[..3] == Ascii("100");
    FromStrRadix16Overflow();
  }

  /** In "1G00" the bad digit comes before any overflow. */
  lemma FromStrRadix16InvalidFirst()
    ensures FromStrRadix16(Ascii("1G00")) == Failure(InvalidDigit)
  {
    var d := Ascii("1G00");
    assert d == [0x31, 0x47, 0x30, 0x30];
    assert d[..3] == [0x31, 0x47, 0x30];
    assert d[..3][..2] == [0x31, 0x47];
    assert d[..3][..2][..1] == [0x31];
    assert d[..3][..2][..1][..0] == [];
    assert ParseDigits([0x31]) == Success(0x01);
    assert ParseDigits([0x31, 0x47]) == Failure(InvalidDigit);
  }

  /** Leading zeros are accepted, in any number. */
  lemma FromStrRadix16LeadingZeros()
    ensures FromStrRadix16(Ascii("000a")) == Success(0x0A)
  {
    var d := Ascii("000a");
    assert d == [0x30, 0x30, 0x30, 0x61];
    assert d[..3] == [0x30, 0x30, 0x30];
    assert d[..3][..2] == [0x30, 0x30];
    assert d[..3][..2][..1] == [0x30];
    assert d[..3][..2][..1][..0] == [];
    assert ParseDigits([0x30]) == Success(0);
    assert ParseDigits([0x30, 0x30]) == Success(0);
    assert ParseDigits([0x30, 0x30, 0x30]) == Success(0);
  }

  // ---------------------------------------------------------------------
  // Pattern::new
  // ---------------------------------------------------------------------

  /** One word of a masked pattern: exactly "?" is a wildcard, anything else
      must parse as a hexadecimal byte. */
  function CompileToken(w: seq<Byte>): Result<Token, IntErrorKind> {
    if w == [QUESTION] then Success(None)
    else
      var b := FromStrRadix16(w);
      if b.Failure? then Failure(b.error) else Success(Some(b.value))
  }

  /** The words compiled in order; the first word that fails decides the error. */
  function Compile(ws: seq<seq<Byte>>): Result<Pattern, IntErrorKind> {
    if ws == [] then Success(Pattern([]))
    else
      var init := Compile(ws[..|ws| - 1]);
      if init.Failure? then init
      else
        var t := CompileToken(ws[|ws| - 1]);
        if t.Failure? then Failure(t.error) else Success(Pattern(init.value.mask + [t.value]))
  }

  /** The pattern `Pattern::new(text)` produces. */
  function CompileMasked(text: seq<Byte>): Result<Pattern, IntErrorKind> {
    Compile(Words(text))
  }

  /** Compilation succeeds exactly when every word does, and then holds one
      token per word, in order; otherwise the error is that of the first
      word that fails. */
  lemma {:induction false} CompileTokens(ws: seq<seq<Byte>>)
    ensures Compile(ws).Success? <==> forall k :: 0 <= k < |ws| ==> CompileToken(ws[k]).Success?
    ensures Compile(ws).Success? ==>
      |Compile(ws).value.mask| == |ws| &&
      forall k :: 0 <= k < |ws| ==> Compile(ws).value.mask[k] == CompileToken(ws[k]).value
    ensures Compile(ws).Failure? ==>
      exists k :: 0 <= k < |ws| && CompileToken(ws[k]).Failure? &&
        Compile(ws).error == CompileToken(ws[k]).error &&
        forall j :: 0 <= j < k ==> CompileToken(ws[j]).Success?
  {
    if ws != [] {
      var init := ws[..|ws| - 1];
      CompileTokens(init);
      assert forall k :: 0 <= k < |init| ==> init[k] == ws[k];
    }
  }

  /** `Pattern::new(pat)`: each whitespace-separated word becomes a token;
      the first word that is neither "?" nor a hexadecimal byte ends the
      loop with its parse error. */
  method New(text: seq<Byte>) returns (r: Result<Pattern, IntErrorKind>)
    ensures r == CompileMasked(text)
  {
    var words := Words(text);
    var mask: seq<Token> := [];
    var k := 0;
    while k < |words|
      invariant 0 <= k <= |words|
      invariant Compile(words[..k]) == Success(Pattern(mask))
    {
      assert words[..k + 1][..k] == words[..k];
      var b := words[k];
      if b == [QUESTION] {
        mask := mask + [None];
      } else {
        var v := FromStrRadix16(b);
        if v.Failure? {
          PrefixFailure(words, k + 1);
          return Failure(v.error);
        }
        mask := mask + [Some(v.value)];
      }
      k := k + 1;
    }
    assert words[..k] == words;
    return Success(Pattern(mask));
  }

  /** A failure in a prefix of the words is the failure of them all. */
  lemma {:induction false} PrefixFailure(ws: seq<seq<Byte>>, n: nat)
    requires n <= |ws| && Compile(ws[..n]).Failure?
    ensures Compile(ws) == Compile(ws[..n])
    decreases |ws| - n
  {
    if n < |ws| {
      var m := n + 1;
      assert ws[..m][..n] == ws[..n];
      PrefixFailure(ws, m);
    } else {
      assert ws[..n] == ws;
    }
  }

  /** The upper-case rendering of one token: "?" or two hexadecimal digits. */
  function RenderToken(t: Token): seq<Byte> {
    if t.None? then [QUESTION]
    else [UpperHexChar(t.value as int / 16), UpperHexChar(t.value as int % 16)]
  }

  /** A pattern written out the way `Pattern::new` reads it. */
  function Render(p: Pattern): seq<Byte> {
    Join(seq(|p.mask|, k requires 0 <= k < |p.mask| => RenderToken(p.mask[k])))
  }

  lemma CompileRenderToken(t: Token)
    ensures IsWord(RenderToken(t))
    ensures CompileToken(RenderToken(t)) == Success(t)
  {
    if t.Some? {
      var b := t.value as int;
      var w := RenderToken(t);
      HexDigitCases(b / 16, w[0]);
      HexDigitCases(b % 16, w[1]);
      assert w[..1] == [w[0]];
      assert w[..1][..0] == [];
      assert ParseDigits(w[..1]) == Success((b / 16) as Byte);
    }
  }

  /** Round trip: every pattern, wildcards included, can be written as text
      that `Pattern::new` compiles back to it. */
  lemma CompileRender(p: Pattern)
    ensures CompileMasked(Render(p)) == Success(p)
  {
    var ws := seq(|p.mask|, k requires 0 <= k < |p.mask| => RenderToken(p.mask[k]));
    forall k | 0 <= k < |ws|
      ensures IsWord(ws[k]) && CompileToken(ws[k]) == Success(p.mask[k])
    {
      CompileRenderToken(p.mask[k]);
    }
    WordsOfJoin(ws);
    CompileTokens(ws);
    assert Compile(ws).value.mask == p.mask;
  }

  // ---------------------------------------------------------------------
  // Pattern::from_str and TryFrom<&str>
  // ---------------------------------------------------------------------

  /** The pattern that matches exactly the bytes of `text`. */
  function Literal(text: seq<Byte>): Pattern {
    Pattern(seq(|text|, k requires 0 <= k < |text| => Some(text[k])))
  }

  /** `Pattern::from_str(pat)`: one exact token per byte of the string, in
      order; it never fails. */
  method FromStr(text: seq<Byte>) returns (r: Result<Pattern, IntErrorKind>)
    ensures r.Success? && |r.value.mask| == |text|
    ensures forall k :: 0 <= k < |text| ==> r.value.mask[k] == Some(text[k])
    ensures r == Success(Literal(text))
  {
    var mask: seq<Token> := [];
    for k := 0 to |text|
      invariant |mask| == k
      invariant forall j :: 0 <= j < k ==> mask[j] == Some(text[j])
    {
      mask := mask + [Some(text[k])];
    }
    assert mask == Literal(text).mask;
    return Success(Pattern(mask));
  }

  /** `Pattern::try_from(value)`, which is `Pattern::from_str(value)`. */
  method TryFrom(text: seq<Byte>) returns (r: Result<Pattern, IntErrorKind>)
    ensures r == Success(Literal(text))
  {
    r := FromStr(text);
  }

  /** The same literal written in hexadecimal compiles to the same pattern:
      `Pattern::new` of a string's hex dump agrees with `Pattern::from_str`. */
  lemma CompileHexDump(text: seq<Byte>)
    ensures CompileMasked(Render(Literal(text))) == Success(Literal(text))
  {
    CompileRender(Literal(text));
  }

  /** The token list of the `Pattern::new` test. */
  const NEW_EXAMPLE := Pattern([Some(0x01), Some(0x23), Some(0x45), Some(0x67), Some(0x89),
                                Some(0xAB), Some(0xCD), Some(0xEF), None])

  /** The words of the `Pattern::new` test text "01 23 45 67 89 AB CD EF ?". */
  const NEW_EXAMPLE_WORDS: seq<seq<Byte>> :=
    [Ascii("01"), Ascii("23"), Ascii("45"), Ascii("67"), Ascii("89"),
     Ascii("AB"), Ascii("CD"), Ascii("EF"), Ascii("?")]

  /** The `Pattern::new` test: "01 23 45 67 89 AB CD EF ?" compiles to
      nine tokens, eight bytes and a trailing wildcard. */
  lemma NewExample()
    ensures CompileMasked(Join(NEW_EXAMPLE_WORDS)) == Success(NEW_EXAMPLE)
    ensures NEW_EXAMPLE.mask[0] == Some(0x01) && NEW_EXAMPLE.mask[1] == Some(0x23) &&
      NEW_EXAMPLE.mask[7] == Some(0xEF) && NEW_EXAMPLE.mask[8] == None
  {
    var p := NEW_EXAMPLE;
    assert Ascii("01") == [0x30, 0x31];
    assert Ascii("23") == [0x32, 0x33];
    assert Ascii("45") == [0x34, 0x35];
    assert Ascii("67") == [0x36, 0x37];
    assert Ascii("89") == [0x38, 0x39];
    assert Ascii("AB") == [0x41, 0x42];
    assert Ascii("CD") == [0x43, 0x44];
    assert Ascii("EF") == [0x45, 0x46];
    assert Ascii("?") == [QUESTION];
    assert NEW_EXAMPLE_WORDS == [[0x30, 0x31], [0x32, 0x33], [0x34, 0x35], [0x36, 0x37], [0x38, 0x39],
                                 [0x41, 0x42], [0x43, 0x44], [0x45, 0x46], [QUESTION]];
    assert NEW_EXAMPLE_WORDS == seq(|p.mask|, k requires 0 <= k < |p.mask| => RenderToken(p.mask[k]));
    CompileRender(NEW_EXAMPLE);
  }

  /** Tokens the loop accepts and rejects: one digit is a byte, either case
      is accepted, and only a single "?" is a wildcard. */
  lemma CompileTokenExamples()
    ensures CompileToken(Ascii("2")) == Success(Some(0x02))
    ensures CompileToken(Ascii("0a")) == Success(Some(0x0A))
    ensures CompileToken(Ascii("0C")) == Success(Some(0x0C))
    ensures CompileToken(Ascii("?")) == Success(None)
    ensures CompileToken(Ascii("??")) == Failure(InvalidDigit)
    ensures CompileToken(Ascii("+")) == Failure(InvalidDigit)
  {
    assert Ascii("2") == [0x32];
    assert [0x32][..0] == [];
    assert Ascii("0a") == [0x30, 0x61];
    assert [0x30, 0x61][..1] == [0x30];
    assert Ascii("0C") == [0x30, 0x43];
    assert [0x30, 0x43][..1] == [0x30];
    assert Ascii("??") == [QUESTION, QUESTION];
    assert [QUESTION, QUESTION][..1] == [QUESTION];
  }
}

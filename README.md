# luarunny memory scanning, modelled in Dafny

This project models `src/mem.rs` of luarunny. luarunny is a Windows DLL:
once injected into a process, it starts a thread that runs its own Lua
interpreter in a small REPL window. From Lua, that REPL can read the
memory of the host process and search it. `src/mem.rs` holds that memory
toolkit. Two groups of its operations are modelled.

- **Cross-reference (xref) resolution.**
  - `abs(address)` reads the little-endian `i32` stored at `address` and
    returns `address + displacement + 4`, with 64-bit wrap-around.
  - `xref(mem, address)` returns the first place in a slice whose
    displacement resolves to `address`.
  - `xrefs(mem, address)` returns all such places, by restarting `xref`
    one byte past each hit.
- **Byte-pattern scanning.**
  - A `Pattern` is a list of tokens. Each token is either an exact byte or
    a wildcard.
  - `Pattern::new` compiles text such as `"0a ? 0C"`. The text is split on
    ASCII whitespace; every word is either `?` or is parsed by
    `u8::from_str_radix(word, 16)`.
  - `Pattern::from_str` and `TryFrom<&str>` take every byte of a string
    literally.
  - `scan_pattern`, `rscan_pattern` and `scan_all_pattern` find the first
    match, the last match, and every match in a slice.
  - `scan`, `rscan`, `scan_all`, `scan_str`, `rscan_str` and
    `scan_all_str` compile the pattern first, then scan.

## Modules

| file | module | what it holds |
|---|---|---|
| `wrappers.dfy` | `Wrappers` | `Option` and `Result` |
| `offsets.dfy` | `Offsets` | `First`, `Last` and `Below`: the first, last and every offset satisfying a predicate, with their characterising lemmas |
| `memory_span.dfy` | `MemorySpan` | `Address` (a `usize`), `Byte` (a `u8`), and `Span`: a `&[u8]` as its base address plus its bytes |
| `xref_resolver.dfy` | `XrefResolver` | `abs`, `xref` and `xrefs` |
| `patterns.dfy` | `Patterns` | `split_ascii_whitespace`, `u8::from_str_radix(_, 16)`, `Pattern::new`, `Pattern::from_str` and `TryFrom` |
| `scanner.dfy` | `Scanner` | the three scans and the six wrappers |
| `scanner_examples.dfy` | `ScannerExamples` | the unit tests of the scans, as lemmas |

## How the model is built

Every loop of the source is a Dafny `method` with a `while` or `for` loop.
Each method is proved against a specification function:

- `Xref` against `First(XrefHit(..))`;
- `Xrefs` against `Below(XrefHit(..))`;
- `ScanPattern` against `FirstMatch`;
- `RScanPattern` against `LastMatch`;
- `ScanAllPattern` against `AllMatches`;
- `New` against `CompileMasked`;
- `FromStr` against `Literal`.

Lemmas then state what each specification function means in the source's
own terms:

- `abs` resolves to the target, or the pattern matches at the offset;
- the result is the first (or last) such offset;
- no result exactly when there is no such offset;
- the list holds every such address and nothing else, once each, in
  ascending order.

`xrefs` and `scan_all_pattern` restart the single search on the
sub-slice `&mem[i..]`. The model keeps that structure:

- `Span.Drop` is the sub-slice;
- `XrefOnDrop` and `ScanOnDrop` show that the search on the sub-slice
  finds the first hit of the whole slice at or after `i`;
- `XrefsRound` and `ScanAllRound` are the loop step.

### Behaviour as written

The model follows the code, including the places where it does something
other than the obvious intent.

- **`scan_pattern` and `scan_all_pattern` miss the last offset.** They try
  offsets `0 .. len - plen - 1` (`i < len - plen`). A match that ends
  exactly at the end of the slice is never found. `ScanMissesLastOffset`
  proves this for every pattern as long as the slice, and
  `ScanMissesLastOffsetExample` shows a pattern that matches there.
- **`rscan_pattern` misses offset 0.** It tries `len - plen` down to 1
  (`while i > 0`). `RScanMissesOffsetZero` proves it: a pattern shorter
  than the slice whose only match among the offsets `rscan_pattern` tries
  would be at 0 is missed by `rscan_pattern` and found by `scan_pattern`.
  `RScanMissesOffsetZeroExample` is one such case.
- **`xref` covers every offset.** It tries `0 ..= len - 4`, so every
  4-byte window is considered.
- **Unchecked subtractions become preconditions.** `mem.len() - 4` and
  `mem.len() - pat.0.len()` are unchecked `usize` subtractions. A slice
  that is too short makes them underflow, which panics in debug builds.
  In release builds the two cases differ.
  - `xref` and `xrefs` loop over nearly the whole address space. `abs`
    dereferences each candidate address unchecked, so they read out of
    bounds.
  - The scans index with `mem[i + j]`, which is bounds-checked in every
    build. They panic at the first exact token that lies past the end.
    If every token past the end is a wildcard, they report a match that
    runs off the slice. They never read out of bounds.

  The model requires `len >= 4` for `xref`/`xrefs`, and requires the
  pattern to be no longer than the slice for the scans.
- **Token parsing.**
  - Only the exact word `?` is a wildcard. `??` is parsed as hex and
    fails with `InvalidDigit`.
  - A one-digit word such as `2` is accepted.
  - Any number of leading zeros is accepted.
  - One leading `+` is accepted.
  - The error returned is the error kind of the first word that fails.

## Model

| member | source | states |
|---|---|---|
| XrefResolver.LittleEndian32 | src/mem.rs:13 | the four bytes read at an address denote an unsigned 32-bit value |
| XrefResolver.Displacement | src/mem.rs:13 | the `i32` read at an address lies in the `i32` range |
| XrefResolver.DisplacementOfEncoded | src/mem.rs:13 | storing an `i32` as four little-endian bytes and reading it back gives the same value |
| XrefResolver.EncodedDisplacement | src/mem.rs:13 | every four bytes are exactly the encoding of the `i32` they are read as |
| XrefResolver.Abs | src/mem.rs:12-15 | `abs(address)`: reads the `i32` at `address` from the span that holds it, sign-extends it, and adds it and 4 to the address with `wrapping_add`; what that means is stated by `AbsIsDisplacementTarget` |
| XrefResolver.AbsIsDisplacementTarget | src/mem.rs:12-15 | `abs(a)` is `a + displacement + 4` modulo 2^64, for negative displacements too |
| XrefResolver.EncodedXrefResolves | src/mem.rs:12-15 | storing at offset `i` the displacement from `base + i + 4` to a target makes offset `i` an xref to that target |
| XrefResolver.AbsDrop | src/mem.rs:41 | `abs` reads the same memory through the sub-slice `&mem[d..]` |
| XrefResolver.XrefAtIsAbs | src/mem.rs:22-27 | an offset is an xref to the target exactly when it is a candidate (`i <= len - 4`) and `abs` of its address is the target |
| XrefResolver.XrefAtDrop | src/mem.rs:41 | offset `x` of `&mem[d..]` is an xref exactly when offset `x + d` of `mem` is |
| XrefResolver.XrefOnDrop | src/mem.rs:41 | `xref` on `&mem[i..]` finds the first xref of `mem` at or after offset `i` |
| XrefResolver.XrefsRound | src/mem.rs:40-48 | one round of `xrefs`: the hit lies at or after `i`, and the list grows by exactly that address; no hit means no xref is left |
| XrefResolver.Xref | src/mem.rs:17-33 | `xref` returns the address of the first candidate offset from 0 to `len - 4` that is an xref to the target, or `None` |
| XrefResolver.Xrefs | src/mem.rs:35-51 | `xrefs` returns the addresses of all xrefs to the target in ascending order of offset |
| XrefResolver.XrefIsFirstXref | src/mem.rs:17-33 | the `xref` result, stated through `abs`: its `abs` is the target, no earlier candidate's is, and `None` exactly when no candidate's is |
| XrefResolver.XrefsAreAllXrefs | src/mem.rs:35-51 | the `xrefs` result, stated through `abs`: a candidate's address is in the list iff its `abs` is the target; every entry is a candidate; entries strictly ascend |
| XrefResolver.AbsExample | src/mem.rs:209-215 | the `abs` test: bytes 12 34 56 78 resolve to the address plus 0x78563416 |
| XrefResolver.AbsNegativeExample | src/mem.rs:217-220 | the `abs` test: a stored -42 resolves to the address minus 42 plus 4 |
| XrefResolver.XrefExample | src/mem.rs:223-238 | the `xref` and `xrefs` tests: the only reference is at offset 4, and `xrefs` finds exactly one |
| Patterns.WordsAreWords | src/mem.rs:59 | every piece `split_ascii_whitespace` yields is non-empty and free of ASCII whitespace |
| Patterns.WordsKeepBytes | src/mem.rs:59 | the pieces, concatenated, are exactly the non-whitespace bytes of the text, in order |
| Patterns.WordsAcross | src/mem.rs:59 | splitting `a ++ whitespace ++ b` is splitting `a` then splitting `b` |
| Patterns.WordsOfJoin | src/mem.rs:59 | round trip: splitting words joined by single spaces gives the words back |
| Patterns.HexDigit | src/mem.rs:63 | a hexadecimal digit's value is below 16 |
| Patterns.HexDigitCases | src/mem.rs:63 | digits are read case-insensitively, and only the 22 hexadecimal digit characters are digits |
| Patterns.ParseDigits | src/mem.rs:63 | the digit loop never reports `Empty` |
| Patterns.FromStrRadix16 | src/mem.rs:63 | `from_str_radix` reports `Empty` exactly for the empty word |
| Patterns.ParseDigitsValue | src/mem.rs:63 | the digit loop succeeds iff every byte is a hex digit and the value is at most 255, and then returns that value |
| Patterns.FromStrRadix16Value | src/mem.rs:63 | `from_str_radix(w, 16)` succeeds iff what follows an optional `+` is a non-empty run of hex digits worth at most 255, and then yields that value |
| Patterns.FromStrRadix16SignErrors | src/mem.rs:63 | empty is `Empty`; a lone `+`/`-` and a leading `-` are `InvalidDigit`; `+FF` is 255 |
| Patterns.FromStrRadix16Overflow | src/mem.rs:63 | "100" is `PosOverflow` |
| Patterns.FromStrRadix16OverflowFirst | src/mem.rs:63 | in "100G" the overflow, met first, is the error reported |
| Patterns.FromStrRadix16InvalidFirst | src/mem.rs:63 | in "1G00" the bad digit, met first, is the error reported |
| Patterns.FromStrRadix16LeadingZeros | src/mem.rs:63 | "000a" is 10: leading zeros are accepted |
| Patterns.CompileTokens | src/mem.rs:59-65 | compilation succeeds iff every word does, then has one token per word in order; otherwise its error is that of the first failing word |
| Patterns.New | src/mem.rs:56-68 | `Pattern::new` returns the compiled pattern or the first word's parse error, stopping at that word |
| Patterns.PrefixFailure | src/mem.rs:63 | the early return on the first failing word gives the same result as compiling every word |
| Patterns.CompileRenderToken | src/mem.rs:60-63 | every token written as `?` or two upper-case hex digits is one word that compiles back to the token |
| Patterns.CompileRender | src/mem.rs:56-68 | round trip: every pattern, wildcards included, has a text that `Pattern::new` compiles back to it |
| Patterns.FromStr | src/mem.rs:70-78 | `Pattern::from_str` never fails and yields one exact token per byte, in order |
| Patterns.TryFrom | src/mem.rs:81-87 | `try_from` is `from_str` |
| Patterns.CompileHexDump | src/mem.rs:56-78 | `Pattern::new` of a string's hex dump is `Pattern::from_str` of the string |
| Patterns.NewExample | src/mem.rs:240-248 | the `Pattern::new` test: "01 23 45 67 89 AB CD EF ?" gives eight bytes and a trailing wildcard |
| Patterns.CompileTokenExamples | src/mem.rs:60-63 | "2", "0a", "0C" are bytes, "?" is a wildcard, "??" and "+" are `InvalidDigit` |
| Scanner.TokensMatchEvery | src/mem.rs:95-106 | the token-by-token comparison succeeds iff every token is a wildcard or equals the byte under it |
| Scanner.MismatchRulesOut | src/mem.rs:96-100 | one fixed token that differs from the byte under it rules the offset out |
| Scanner.LiteralMatchesExactly | src/mem.rs:70-78 | a `from_str` pattern matches exactly where its bytes occur |
| Scanner.WildcardsMatchAnywhere | src/mem.rs:102 | an all-wildcard pattern matches at every offset where it fits |
| Scanner.FirstMatchIsFirst | src/mem.rs:89-116 | the `scan_pattern` result matches, at an offset below `len - plen`, and no earlier offset matches; `None` iff no offset below `len - plen` matches |
| Scanner.LastMatchIsLast | src/mem.rs:118-145 | the `rscan_pattern` result matches, at an offset from 1 to `len - plen`, and no later offset matches; `None` iff no offset in 1 to `len - plen` matches |
| Scanner.AllMatchesAreAll | src/mem.rs:147-162 | the `scan_all_pattern` result holds an offset's address iff the pattern matches there (offsets below `len - plen`), and strictly ascends |
| Scanner.FirstMatchIsHeadOfAll | src/mem.rs:89-162 | `scan_pattern` finds the first address `scan_all_pattern` finds, and `None` iff that finds nothing |
| Scanner.ScanMissesLastOffset | src/mem.rs:92 | for every pattern exactly as long as the slice, `scan_pattern`, `rscan_pattern` and `scan_all_pattern` find nothing, whether or not it matches |
| Scanner.ScanMissesLastOffsetExample | src/mem.rs:92 | the pattern 01 02 matches the bytes 01 02 at offset 0, and `scan_pattern` and `scan_all_pattern` find nothing there |
| Scanner.RScanMissesOffsetZero | src/mem.rs:119-121 | for every pattern shorter than the slice that matches at offset 0 and at no offset from 1 to `len - plen`, `rscan_pattern` finds nothing and `scan_pattern` finds the slice's base address |
| Scanner.RScanMissesOffsetZeroExample | src/mem.rs:119-121 | the pattern 01 in the bytes 01 02 03: it matches at offset 0, `rscan_pattern` finds nothing, and `scan_pattern` finds the base address |
| Scanner.ScanPattern | src/mem.rs:89-116 | `scan_pattern` returns the first match below `len - plen` |
| Scanner.RScanPattern | src/mem.rs:118-145 | `rscan_pattern` returns the last match from `len - plen` down to 1 |
| Scanner.TokensMatchDrop | src/mem.rs:152 | comparing at `x` in `&mem[d..]` is comparing at `x + d` in `mem` |
| Scanner.MatchHitDrop | src/mem.rs:152 | the pattern matches at `x` in `&mem[d..]` iff it matches at `x + d` in `mem` |
| Scanner.ScanOnDrop | src/mem.rs:152 | `scan_pattern` on `&mem[i..]` finds the first match of `mem` at or after `i` |
| Scanner.ScanAllRound | src/mem.rs:151-159 | one round of `scan_all_pattern`: the hit lies at or after `i`, and the list grows by exactly that address; no hit means no match is left |
| Scanner.ScanAllPattern | src/mem.rs:147-162 | `scan_all_pattern` returns every match below `len - plen`, in ascending order |
| Scanner.Scan | src/mem.rs:164-166 | `scan` passes `Pattern::new`'s error on, else returns `scan_pattern`'s result |
| Scanner.RScan | src/mem.rs:168-170 | `rscan` passes `Pattern::new`'s error on, else returns `rscan_pattern`'s result |
| Scanner.ScanAll | src/mem.rs:172-174 | `scan_all` passes `Pattern::new`'s error on, else returns `scan_all_pattern`'s result |
| Scanner.ScanStr | src/mem.rs:176-178 | `scan_str` never fails and returns the first match of the literal pattern |
| Scanner.RScanStr | src/mem.rs:180-182 | `rscan_str` never fails and returns the last match of the literal pattern |
| Scanner.ScanAllStr | src/mem.rs:184-186 | `scan_all_str` never fails and returns every match of the literal pattern |
| Scanner.FirstLiteralIsFirstOccurrence | src/mem.rs:176-178 | `scan_str` returns the first offset below `len - plen` where the string's bytes occur, and `None` iff there is none |
| ScannerExamples.ScanPatternText | src/mem.rs:285 | "0a ? 0C" compiles to 0A, wildcard, 0C |
| ScannerExamples.ScanExample | src/mem.rs:280-288 | the `scan` test: in bytes 0..15 the pattern is found at offset 10 |
| ScannerExamples.ScanAllPatternText | src/mem.rs:295 | "00 ? ? 03" compiles to 00, wildcard, wildcard, 03 |
| ScannerExamples.ScanAllMismatches | src/mem.rs:290-298 | in the `scan_all` test data the pattern fails at offsets 1-5, 7 and 8 |
| ScannerExamples.ScanAllOffsets | src/mem.rs:290-298 | in the `scan_all` test data the matching offsets tried are exactly 0 and 6 |
| ScannerExamples.ScanAllExample | src/mem.rs:290-298 | the `scan_all` test: the addresses found are base + 0 and base + 6 |
| ScannerExamples.HelloWorldText | src/mem.rs:302-305 | the bytes of "Hello, world!" and "world" |
| ScannerExamples.ScanStrExample | src/mem.rs:300-308 | the `scan_str` test: "world" is found at offset 7 of "Hello, world!" |
| ScannerExamples.HelloTwiceText | src/mem.rs:312-315 | the bytes of "Hello, world! Hello, moon!" and "Hello" |
| ScannerExamples.HelloMismatches | src/mem.rs:310-318 | "Hello" does not occur at offsets 1-13 and 15-20 of that text |
| ScannerExamples.ScanAllStrOffsets | src/mem.rs:310-318 | the offsets where "Hello" is found are exactly 0 and 14 |
| ScannerExamples.ScanAllStrExample | src/mem.rs:310-318 | the `scan_all_str` test: the addresses found are base + 0 and base + 14 |

## Left out

- `span` and `span_from` (src/mem.rs:4-10) build a slice from a raw
  address and a length. A `Span` is given directly, as a base address plus its bytes.
  Whether that memory is mapped and readable is outside the model.
- Memory faults are not modelled. `abs` dereferences any address it is
  given; the model only reads inside the span.
- Debug-build overflow panics are not modelled. Arithmetic is on
  unbounded integers, with `usize` wrap-around written out in `abs`.
  Elsewhere a `Span` is assumed not to wrap the address space.
- The underflow of `mem.len() - 4` and `mem.len() - pat.0.len()` on short
  slices is a precondition. The model does not cover what follows the
  underflow: the panic, the out-of-bounds reads of `xref`, and the
  bounds-check panic or overhanging match of the scans. This applies to `Xref`, `Xrefs`, `ScanPattern`,
  `RScanPattern`, `ScanAllPattern` and the six wrappers.
- XrefResolver.Abs: its characterisation is the lemma
  `AbsIsDisplacementTarget`, not an `ensures` of the function, to keep it
  out of every proof that mentions `abs`.
- The `anyhow::Error` of `Pattern::new` is modelled as the
  `IntErrorKind` of the failing word. The word itself and the error
  message are not.
- Patterns.FromStrRadix16: follows the digit-by-digit behaviour of
  current Rust std, including one leading `+`. Older std versions
  differed in which error kind some malformed words report.
- Text is modelled as its UTF-8 bytes. Multi-byte characters are
  therefore not words of their own; `split_ascii_whitespace` only splits
  on ASCII whitespace, and `from_str_radix` rejects any non-ASCII byte,
  so the bytes describe the same behaviour.
- The wrappers and `TryFrom` are Dafny methods, because they call
  methods. Their contracts tie them to the specification functions.
- The rest of the repository (the Lua API bindings, the entry point,
  module lookup, typed reads and writes) is not part of this model.

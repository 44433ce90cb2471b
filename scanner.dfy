/*
  Pattern scanning over a span of memory (`scan_pattern`, `rscan_pattern`,
  `scan_all_pattern` in src/mem.rs) and the wrappers that compile the
  pattern from text first (`scan`, `rscan`, `scan_all` with `Pattern::new`;
  `scan_str`, `rscan_str`, `scan_all_str` with `Pattern::from_str`).

  The offsets tried are those of the source as written: the forward scans
  try 0 up to but excluding len - plen, so a match that ends exactly at the
  end of the span is never found; the reverse scan tries len - plen down to
  1, so a match at offset 0 is never found. `len - plen` is an unchecked
  `usize` subtraction, so every scan requires the pattern to be no longer
  than the span.
*/
module Scanner {
  import opened Wrappers
  import opened MemorySpan
  import opened Offsets
  import opened Patterns

  predicate TokenMatches(t: Token, b: Byte) {
    t.None? || t.value == b
  }

  /** The pattern lies within `b` from offset `i` and every token matches
      the byte under it. */
  predicate MatchesAt(p: Pattern, b: seq<Byte>, i: nat) {
    i + |p.mask| <= |b| && TokensMatch(p.mask, b, i)
  }
  predicate TokensMatch(m: seq<Token>, b: seq<Byte>, i: nat)
    requires i + |m| <= |b|
  {
    m == [] || (TokenMatches(m[0], b[i]) && TokensMatch(m[1..], b, i + 1))
  }

  /** The recursive comparison checks every token against the byte under it. */
  lemma {:induction false} TokensMatchEvery(m: seq<Token>, b: seq<Byte>, i: nat)
    requires i + |m| <= |b|
    ensures TokensMatch(m, b, i) <==> forall j :: 0 <= j < |m| ==> TokenMatches(m[j], b[i + j])
    decreases |m|
  {
    if m != [] {
      TokensMatchEvery(m[1..], b, i + 1);
      if forall j :: 0 <= j < |m| ==> TokenMatches(m[j], b[i + j]) {
        forall j | 0 <= j < |m| - 1 ensures TokenMatches(m[1..][j], b[i + 1 + j]) {
          assert TokenMatches(m[j + 1], b[i + (j + 1)]);
        }
      }
      if TokensMatch(m, b, i) {
        forall j | 0 <= j < |m| ensures TokenMatches(m[j], b[i + j]) {
          if j > 0 {
            assert TokenMatches(m[1..][j - 1], b[i + 1 + (j - 1)]);
          }
        }
      }
    }
  }

  function MatchHit(b: seq<Byte>, p: Pattern): nat -> bool {
    (i: nat) => MatchesAt(p, b, i)
  }

  /** The address `scan_pattern` returns: the first offset below
      len - plen where the pattern matches. */
  function FirstMatch(s: Span, p: Pattern): Option<Address>
    requires s.Valid() && |p.mask| <= |s.bytes|
  {
    s.AddressOpt(First(MatchHit(s.bytes, p), 0, |s.bytes| - |p.mask|))
  }

  /** The address `rscan_pattern` returns: the last offset from 1 up to and
      including len - plen where the pattern matches. */
  function LastMatch(s: Span, p: Pattern): Option<Address>
    requires s.Valid() && |p.mask| <= |s.bytes|
  {
    s.AddressOpt(Last(MatchHit(s.bytes, p), 1, |s.bytes| - |p.mask| + 1))
  }

  /** The addresses `scan_all_pattern` returns: every offset below
      len - plen where the pattern matches, in ascending order. */
  function AllMatches(s: Span, p: Pattern): seq<Address>
    requires s.Valid() && |p.mask| <= |s.bytes|
  {
    s.Addresses(Below(MatchHit(s.bytes, p), |s.bytes| - |p.mask|))
  }

  // ---------------------------------------------------------------------
  // What the three searches return, stated through `MatchesAt`
  // ---------------------------------------------------------------------

  /** `scan_pattern` returns the first match at an offset below len - plen,
      and nothing exactly when there is none. */
  lemma FirstMatchIsFirst(s: Span, p: Pattern)
    requires s.Valid() && |p.mask| <= |s.bytes|
    ensures var r := FirstMatch(s, p);
      r.Some? ==>
        s.base <= r.value && (r.value - s.base) as int < |s.bytes| - |p.mask| &&
        MatchesAt(p, s.bytes, (r.value - s.base) as int) &&
        forall k :: 0 <= k < (r.value - s.base) as int ==> !MatchesAt(p, s.bytes, k)
    ensures FirstMatch(s, p).None? <==> forall k :: 0 <= k < |s.bytes| - |p.mask| ==> !MatchesAt(p, s.bytes, k)
  {
    var hit := MatchHit(s.bytes, p);
    FirstIsLeast(hit, 0, |s.bytes| - |p.mask|);
    assert forall k: nat :: hit(k) == MatchesAt(p, s.bytes, k);
  }

  /** `rscan_pattern` returns the last match at an offset from 1 to
      len - plen, and nothing exactly when there is none. */
  lemma LastMatchIsLast(s: Span, p: Pattern)
    requires s.Valid() && |p.mask| <= |s.bytes|
    ensures var r := LastMatch(s, p);
      r.Some? ==>
        s.base < r.value && (r.value - s.base) as int <= |s.bytes| - |p.mask| &&
        MatchesAt(p, s.bytes, (r.value - s.base) as int) &&
        forall k :: (r.value - s.base) as int < k <= |s.bytes| - |p.mask| ==> !MatchesAt(p, s.bytes, k)
    ensures LastMatch(s, p).None? <==> forall k :: 1 <= k <= |s.bytes| - |p.mask| ==> !MatchesAt(p, s.bytes, k)
  {
    var hit := MatchHit(s.bytes, p);
    LastIsGreatest(hit, 1, |s.bytes| - |p.mask| + 1);
    assert forall k: nat :: hit(k) == MatchesAt(p, s.bytes, k);
  }

  /** `scan_all_pattern` returns the address of every match at an offset
      below len - plen, and nothing else, once each, in ascending order. */
  lemma AllMatchesAreAll(s: Span, p: Pattern)
    requires s.Valid() && |p.mask| <= |s.bytes|
    ensures forall k :: 0 <= k < |s.bytes| - |p.mask| ==>
      (s.AddressOf(k) in AllMatches(s, p) <==> MatchesAt(p, s.bytes, k))
    ensures forall a :: a in AllMatches(s, p) ==>
      s.base <= a && (a - s.base) as int < |s.bytes| - |p.mask|
    ensures forall j, k :: 0 <= j < k < |AllMatches(s, p)| ==> AllMatches(s, p)[j] < AllMatches(s, p)[k]
  {
    var hit := MatchHit(s.bytes, p);
    AddressesOfHits(s, hit, |s.bytes| - |p.mask|);
    AddressesOfHitsAscending(s, hit, |s.bytes| - |p.mask|);
    assert forall k: nat :: hit(k) == MatchesAt(p, s.bytes, k);
  }

  /** `scan_pattern` finds the first address `scan_all_pattern` finds. */
  lemma FirstMatchIsHeadOfAll(s: Span, p: Pattern)
    requires s.Valid() && |p.mask| <= |s.bytes|
    ensures FirstMatch(s, p) == if AllMatches(s, p) == [] then None else Some(AllMatches(s, p)[0])
  {
    var hit := MatchHit(s.bytes, p);
    var n := |s.bytes| - |p.mask|;
    FirstIsHeadOfBelow(hit, n);
    if Below(hit, n) != [] {
      AddressesAt(s, Below(hit, n), 0);
    }
  }

  /** A pattern exactly as long as the span is never found, even where it
      matches: the forward scans try no offset (`i < len - plen` with
      `len - plen == 0`) and the reverse scan none either (`i > 0`). */
  lemma ScanMissesLastOffset(s: Span, p: Pattern)
    requires s.Valid() && |p.mask| == |s.bytes|
    ensures FirstMatch(s, p) == None && LastMatch(s, p) == None && AllMatches(s, p) == []
  {
  }

  /** An instance of `ScanMissesLastOffset`: the pattern 01 02 matches the
      bytes 01 02 and is not found. */
  lemma ScanMissesLastOffsetExample(a: Address)
    requires a as int + 2 < ADDRESS_SPACE
    ensures MatchesAt(Literal([1, 2]), [1, 2], 0)
    ensures FirstMatch(Span(a, [1, 2]), Literal([1, 2])) == None
    ensures AllMatches(Span(a, [1, 2]), Literal([1, 2])) == []
  {
    ScanMissesLastOffset(Span(a, [1, 2]), Literal([1, 2]));
  }

  /** A pattern shorter than the span that matches at offset 0 and at no
      other offset `rscan_pattern` tries is missed by `rscan_pattern` and
      found by `scan_pattern`. */
  lemma RScanMissesOffsetZero(s: Span, p: Pattern)
    requires s.Valid() && |p.mask| < |s.bytes|
    requires MatchesAt(p, s.bytes, 0)
    requires forall k :: 1 <= k <= |s.bytes| - |p.mask| ==> !MatchesAt(p, s.bytes, k)
    ensures LastMatch(s, p) == None
    ensures FirstMatch(s, p) == Some(s.base)
  {
    LastMatchIsLast(s, p);
    FirstAt(MatchHit(s.bytes, p), 0, |s.bytes| - |p.mask|, 0);
  }

  /** An instance of `RScanMissesOffsetZero`: the pattern 01 in the bytes
      01 02 03. */
  lemma RScanMissesOffsetZeroExample(a: Address)
    requires a as int + 3 < ADDRESS_SPACE
    ensures MatchesAt(Literal([1]), [1, 2, 3], 0)
    ensures LastMatch(Span(a, [1, 2, 3]), Literal([1])) == None
    ensures FirstMatch(Span(a, [1, 2, 3]), Literal([1])) == Some(a)
  {
    var s := Span(a, [1, 2, 3]);
    var p := Literal([1]);
    assert p.mask == [Some(1)];
    assert !TokenMatches(p.mask[0], s.bytes[2 + 0]) && !TokenMatches(p.mask[0], s.bytes[1 + 0]);
    assert !MatchesAt(p, s.bytes, 2) && !MatchesAt(p, s.bytes, 1) && MatchesAt(p, s.bytes, 0);
    RScanMissesOffsetZero(s, p);
  }

  // ---------------------------------------------------------------------
  // Literal and masked patterns
  // ---------------------------------------------------------------------

  /** One fixed token that differs from the byte under it rules an offset
      out, which is where the inner loops break. */
  lemma MismatchRulesOut(p: Pattern, b: seq<Byte>, i: nat, j: nat)
    requires j < |p.mask| && i + |p.mask| <= |b|
    requires !TokenMatches(p.mask[j], b[i + j])
    ensures !MatchesAt(p, b, i)
  {
    TokensMatchEvery(p.mask, b, i);
  }

  /** The bytes `t` occur in `b` at offset `i`. */
  predicate OccursAt(t: seq<Byte>, b: seq<Byte>, i: nat) {
    i + |t| <= |b| && b[i..i + |t|] == t
  }

  /** A literal pattern matches exactly where its bytes occur. */
  lemma LiteralMatchesExactly(t: seq<Byte>, b: seq<Byte>, i: nat)
    ensures MatchesAt(Literal(t), b, i) <==> OccursAt(t, b, i)
  {
    if i + |t| <= |b| {
      TokensMatchEvery(Literal(t).mask, b, i);
      if MatchesAt(Literal(t), b, i) {
        forall j | 0 <= j < |t| ensures b[i..i + |t|][j] == t[j] {
          assert TokenMatches(Literal(t).mask[j], b[i + j]);
        }
      }
      if b[i..i + |t|] == t {
        forall j | 0 <= j < |t| ensures TokenMatches(Literal(t).mask[j], b[i + j]) {
          assert b[i..i + |t|][j] == b[i + j];
        }
      }
    }
  }

  /** A pattern of wildcards only matches at every offset where it fits. */
  lemma WildcardsMatchAnywhere(p: Pattern, b: seq<Byte>, i: nat)
    requires forall j :: 0 <= j < |p.mask| ==> p.mask[j].None?
    ensures MatchesAt(p, b, i) <==> i + |p.mask| <= |b|
  {
    if i + |p.mask| <= |b| {
      TokensMatchEvery(p.mask, b, i);
    }
  }

  // ---------------------------------------------------------------------
  // scan_pattern, rscan_pattern, scan_all_pattern
  // ---------------------------------------------------------------------

  /** `scan_pattern(mem, pat)`: tries each offset from 0 up, compares token
      by token until the first mismatch, and returns the address of the
      first offset where every token matched. */
  method ScanPattern(s: Span, p: Pattern) returns (r: Option<Address>)
    requires s.Valid() && |p.mask| <= |s.bytes|
    ensures r == FirstMatch(s, p)
  {
    var i := 0;
    while i < |s.bytes| - |p.mask|
      invariant 0 <= i <= |s.bytes| - |p.mask|
      invariant forall k :: 0 <= k < i ==> !MatchesAt(p, s.bytes, k)
    {
      var j := 0;
      while j < |p.mask|
        invariant 0 <= j <= |p.mask|
        invariant forall m :: 0 <= m < j ==> TokenMatches(p.mask[m], s.bytes[i + m])
      {
        if p.mask[j].Some? && s.bytes[i + j] != p.mask[j].value {
          break;
        }
        j := j + 1;
      }
      TokensMatchEvery(p.mask, s.bytes, i);
      if j == |p.mask| {
        FirstAt(MatchHit(s.bytes, p), 0, |s.bytes| - |p.mask|, i);
        return Some(s.AddressOf(i));
      }
      i := i + 1;
    }
    FirstIsLeast(MatchHit(s.bytes, p), 0, |s.bytes| - |p.mask|);
    return None;
  }

  /** `rscan_pattern(mem, pat)`: the same comparison, trying offsets from
      len - plen down to 1. */
  method RScanPattern(s: Span, p: Pattern) returns (r: Option<Address>)
    requires s.Valid() && |p.mask| <= |s.bytes|
    ensures r == LastMatch(s, p)
  {
    var i := |s.bytes| - |p.mask|;
    while i > 0
      invariant 0 <= i <= |s.bytes| - |p.mask|
      invariant forall k :: i < k <= |s.bytes| - |p.mask| ==> !MatchesAt(p, s.bytes, k)
    {
      var j := 0;
      while j < |p.mask|
        invariant 0 <= j <= |p.mask|
        invariant forall m :: 0 <= m < j ==> TokenMatches(p.mask[m], s.bytes[i + m])
      {
        if p.mask[j].Some? && s.bytes[i + j] != p.mask[j].value {
          break;
        }
        j := j + 1;
      }
      TokensMatchEvery(p.mask, s.bytes, i);
      if j == |p.mask| {
        LastAt(MatchHit(s.bytes, p), 1, |s.bytes| - |p.mask| + 1, i);
        return Some(s.AddressOf(i));
      }
      i := i - 1;
    }
    LastIsGreatest(MatchHit(s.bytes, p), 1, |s.bytes| - |p.mask| + 1);
    return None;
  }

  lemma MatchHitDrop(s: Span, p: Pattern, d: nat)
    requires s.Valid() && d <= |s.bytes|
    ensures forall x: nat :: MatchHit(s.Drop(d).bytes, p)(x) == MatchHit(s.bytes, p)(x + d)
  {
    forall x: nat
      ensures MatchHit(s.Drop(d).bytes, p)(x) == MatchHit(s.bytes, p)(x + d)
    {
      if x + d + |p.mask| <= |s.bytes| {
        TokensMatchDrop(p.mask, s.bytes, d, x);
      }
    }
  }

  /** Comparing against the sub-slice `&b[d..]` at `x` is comparing against
      `b` at `x + d`. */
  lemma {:induction false} TokensMatchDrop(m: seq<Token>, b: seq<Byte>, d: nat, x: nat)
    requires x + d + |m| <= |b|
    ensures TokensMatch(m, b[d..], x) == TokensMatch(m, b, x + d)
    decreases |m|
  {
    if m != [] {
      assert b[d..][x] == b[x + d];
      TokensMatchDrop(m[1..], b, d, x + 1);
    }
  }

  /** `scan_pattern` on the sub-slice `&mem[i..]` finds the first match of
      the whole span at or after offset `i`. */
  lemma ScanOnDrop(s: Span, p: Pattern, i: nat)
    requires s.Valid() && i + |p.mask| <= |s.bytes|
    ensures FirstMatch(s.Drop(i), p) == s.AddressOpt(First(MatchHit(s.bytes, p), i, |s.bytes| - |p.mask|))
  {
    MatchHitDrop(s, p, i);
    DropFirst(s, MatchHit(s.Drop(i).bytes, p), MatchHit(s.bytes, p), i, |s.bytes| - |p.mask|);
  }

  /** One round of `scan_all_pattern`: given what `scan_pattern` returned
      on `&mem[i..]`, the list found so far grows by exactly that address,
      or there is no match left. */
  lemma ScanAllRound(s: Span, p: Pattern, i: nat, r: Option<Address>)
    requires s.Valid() && i + |p.mask| <= |s.bytes|
    requires r == FirstMatch(s.Drop(i), p)
    ensures r.Some? ==> s.base <= r.value && i <= (r.value - s.base) as int < |s.bytes| - |p.mask|
    ensures r.Some? ==>
      s.Addresses(Below(MatchHit(s.bytes, p), (r.value - s.base) as int + 1))
        == s.Addresses(Below(MatchHit(s.bytes, p), i)) + [r.value]
    ensures r.None? ==>
      s.Addresses(Below(MatchHit(s.bytes, p), |s.bytes| - |p.mask|)) == s.Addresses(Below(MatchHit(s.bytes, p), i))
  {
    var hit := MatchHit(s.bytes, p);
    ScanOnDrop(s, p, i);
    assert r == s.AddressOpt(First(hit, i, |s.bytes| - |p.mask|));
    ResumeAt(s, hit, i, |s.bytes| - |p.mask|, r);
  }

  /** `scan_all_pattern(mem, pat)`: repeatedly scans the rest of the span
      from one past the last match found. */
  method ScanAllPattern(s: Span, p: Pattern) returns (refs: seq<Address>)
    requires s.Valid() && |p.mask| <= |s.bytes|
    ensures refs == AllMatches(s, p)
  {
    refs := [];
    var i := 0;
    while i < |s.bytes| - |p.mask|
      invariant 0 <= i <= |s.bytes| - |p.mask|
      invariant refs == s.Addresses(Below(MatchHit(s.bytes, p), i))
    {
      var r := ScanPattern(s.Drop(i), p);
      ScanAllRound(s, p, i, r);
      if r.Some? {
        refs := refs + [r.value];
        i := (r.value - s.base) as int + 1;
      } else {
        break;
      }
    }
  }

  // ---------------------------------------------------------------------
  // The wrappers
  // ---------------------------------------------------------------------

  /** `scan(mem, pat)`: compile with `Pattern::new`, passing its error on,
      then `scan_pattern`. */
  method Scan(s: Span, text: seq<Byte>) returns (r: Result<Option<Address>, IntErrorKind>)
    requires s.Valid()
    requires CompileMasked(text).Success? ==> |CompileMasked(text).value.mask| <= |s.bytes|
    ensures CompileMasked(text).Failure? ==> r == Failure(CompileMasked(text).error)
    ensures CompileMasked(text).Success? ==> r == Success(FirstMatch(s, CompileMasked(text).value))
  {
    var p := New(text);
    if p.Failure? {
      return Failure(p.error);
    }
    var found := ScanPattern(s, p.value);
    return Success(found);
  }

  /** `rscan(mem, pat)`: compile with `Pattern::new`, then `rscan_pattern`. */
  method RScan(s: Span, text: seq<Byte>) returns (r: Result<Option<Address>, IntErrorKind>)
    requires s.Valid()
    requires CompileMasked(text).Success? ==> |CompileMasked(text).value.mask| <= |s.bytes|
    ensures CompileMasked(text).Failure? ==> r == Failure(CompileMasked(text).error)
    ensures CompileMasked(text).Success? ==> r == Success(LastMatch(s, CompileMasked(text).value))
  {
    var p := New(text);
    if p.Failure? {
      return Failure(p.error);
    }
    var found := RScanPattern(s, p.value);
    return Success(found);
  }

  /** `scan_all(mem, pat)`: compile with `Pattern::new`, then
      `scan_all_pattern`. */
  method ScanAll(s: Span, text: seq<Byte>) returns (r: Result<seq<Address>, IntErrorKind>)
    requires s.Valid()
    requires CompileMasked(text).Success? ==> |CompileMasked(text).value.mask| <= |s.bytes|
    ensures CompileMasked(text).Failure? ==> r == Failure(CompileMasked(text).error)
    ensures CompileMasked(text).Success? ==> r == Success(AllMatches(s, CompileMasked(text).value))
  {
    var p := New(text);
    if p.Failure? {
      return Failure(p.error);
    }
    var found := ScanAllPattern(s, p.value);
    return Success(found);
  }

  /** `scan_str(mem, pat)`: the first occurrence of the bytes of `pat`. */
  method ScanStr(s: Span, text: seq<Byte>) returns (r: Result<Option<Address>, IntErrorKind>)
    requires s.Valid() && |text| <= |s.bytes|
    ensures r == Success(FirstMatch(s, Literal(text)))
  {
    var p := FromStr(text);
    var found := ScanPattern(s, p.value);
    return Success(found);
  }

  /** `rscan_str(mem, pat)`: the last occurrence of the bytes of `pat`. */
  method RScanStr(s: Span, text: seq<Byte>) returns (r: Result<Option<Address>, IntErrorKind>)
    requires s.Valid() && |text| <= |s.bytes|
    ensures r == Success(LastMatch(s, Literal(text)))
  {
    var p := FromStr(text);
    var found := RScanPattern(s, p.value);
    return Success(found);
  }

  /** `scan_all_str(mem, pat)`: every occurrence of the bytes of `pat`. */
  method ScanAllStr(s: Span, text: seq<Byte>) returns (r: Result<seq<Address>, IntErrorKind>)
    requires s.Valid() && |text| <= |s.bytes|
    ensures r == Success(AllMatches(s, Literal(text)))
  {
    var p := FromStr(text);
    var found := ScanAllPattern(s, p.value);
    return Success(found);
  }

  /** What `scan_str` returns, stated through the bytes themselves: the
      first offset below len - plen where `text` occurs. */
  lemma FirstLiteralIsFirstOccurrence(s: Span, text: seq<Byte>)
    requires s.Valid() && |text| <= |s.bytes|
    ensures var r := FirstMatch(s, Literal(text));
      r.Some? ==>
        s.base <= r.value && (r.value - s.base) as int < |s.bytes| - |text| &&
        OccursAt(text, s.bytes, (r.value - s.base) as int) &&
        forall k :: 0 <= k < (r.value - s.base) as int ==> !OccursAt(text, s.bytes, k)
    ensures FirstMatch(s, Literal(text)).None? <==>
      forall k :: 0 <= k < |s.bytes| - |text| ==> !OccursAt(text, s.bytes, k)
  {
    FirstMatchIsFirst(s, Literal(text));
    forall k | 0 <= k < |s.bytes| - |text|
      ensures MatchesAt(Literal(text), s.bytes, k) <==> OccursAt(text, s.bytes, k)
    {
      LiteralMatchesExactly(text, s.bytes, k);
    }
  }
}

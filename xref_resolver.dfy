/** Relative-reference ("xref") resolution: a 4-byte little-endian signed
    displacement stored at address A refers to A + 4 + displacement, and an
    xref to a target is any place in a span whose displacement resolves to
    that target. */
module XrefResolver {
  import opened Wrappers
  import opened MemorySpan
  import opened Offsets

  const I32_MIN: int := -0x8000_0000
  const I32_LIMIT: int := 0x8000_0000

  /** The unsigned 32-bit value stored little-endian at offset `i` of `b`. */
  function LittleEndian32(b: seq<Byte>, i: nat): (u: int)
    requires i + 4 <= |b|
    ensures 0 <= u < 0x1_0000_0000
  {
    b[i] as int + 0x100 * b[i + 1] as int + 0x1_0000 * b[i + 2] as int + 0x100_0000 * b[i + 3] as int
  }

  /** The `i32` stored little-endian at offset `i` of `b` (two's complement). */
  function Displacement(b: seq<Byte>, i: nat): (d: int)
    requires i + 4 <= |b|
    ensures I32_MIN <= d < I32_LIMIT
  {
    var u := LittleEndian32(b, i);
    if u < I32_LIMIT then u else u - 0x1_0000_0000
  }

  /** The four little-endian bytes that store the `i32` value `d`. */
  function EncodeI32(d: int): (b: seq<Byte>)
    requires I32_MIN <= d < I32_LIMIT
  {
    var u := if d < 0 then d + 0x1_0000_0000 else d;
    var q1 := u / 0x100;
    var q2 := q1 / 0x100;
    var q3 := q2 / 0x100;
    [(u % 0x100) as Byte, (q1 % 0x100) as Byte, (q2 % 0x100) as Byte, q3 as Byte]
  }

  /** Reading back a stored displacement gives the stored value. */
  lemma DisplacementOfEncoded(d: int)
    requires I32_MIN <= d < I32_LIMIT
    ensures |EncodeI32(d)| == 4 && Displacement(EncodeI32(d), 0) == d
  {
    var u := if d < 0 then d + 0x1_0000_0000 else d;
    var q1 := u / 0x100;
    var q2 := q1 / 0x100;
    var q3 := q2 / 0x100;
    assert u == 0x100 * q1 + u % 0x100;
    assert q1 == 0x100 * q2 + q1 % 0x100;
    assert q2 == 0x100 * q3 + q2 % 0x100;
    assert LittleEndian32(EncodeI32(d), 0) == u;
  }

  /** Every four bytes are the encoding of the displacement they store. */
  lemma EncodedDisplacement(b: seq<Byte>, i: nat)
    requires i + 4 <= |b|
    ensures EncodeI32(Displacement(b, i)) == b[i..i + 4]
  {
    var u := LittleEndian32(b, i);
    var q1 := b[i + 1] as int + 0x100 * b[i + 2] as int + 0x1_0000 * b[i + 3] as int;
    var q2 := b[i + 2] as int + 0x100 * b[i + 3] as int;
    assert u == 0x100 * q1 + b[i] as int;
    assert u / 0x100 == q1 && u % 0x100 == b[i] as int;
    assert q1 == 0x100 * q2 + b[i + 1] as int;
    assert q1 / 0x100 == q2 && q1 % 0x100 == b[i + 1] as int;
    assert q2 / 0x100 == b[i + 3] as int && q2 % 0x100 == b[i + 2] as int;
    var e := EncodeI32(Displacement(b, i));
    assert e[0] == b[i] && e[1] == b[i + 1] && e[2] == b[i + 2] && e[3] == b[i + 3];
  }

  /** Rust's `a.wrapping_add(x)` on `usize`. */
  function WrappingAdd(a: Address, x: Address): Address {
    if a as int + x as int < ADDRESS_SPACE then a + x else (a as int + x as int - ADDRESS_SPACE) as Address
  }

  /** Rust's `d as usize` for an `i32` `d`: sign extension to 64 bits. */
  function SignExtend(d: int): Address
    requires I32_MIN <= d < I32_LIMIT
  {
    if d < 0 then (d + ADDRESS_SPACE) as Address else d as Address
  }

  /** `abs(address)`: the target of the displacement stored at `address`,
      in wrapping 64-bit arithmetic. The span is the memory that holds the
      four bytes read. */
  function Abs(s: Span, address: Address): Address
    requires s.Valid() && s.base <= address && address as int - s.base as int + 4 <= |s.bytes|
  {
    var offset := Displacement(s.bytes, (address - s.base) as nat);
    WrappingAdd(address, WrappingAdd(SignExtend(offset), 4))
  }

  /** `abs` is the address plus the displacement plus 4, modulo 2^64,
      whatever the sign of the displacement. */
  lemma AbsIsDisplacementTarget(s: Span, address: Address)
    requires s.Valid() && s.base <= address && address as int - s.base as int + 4 <= |s.bytes|
    ensures Abs(s, address) as int
      == (address as int + Displacement(s.bytes, (address - s.base) as nat) + 4) % ADDRESS_SPACE
  {
  }

  /** What `abs` returns at each of the candidate offsets 0 .. n - 1. */
  function Targets(s: Span, n: nat): (r: seq<Address>)
    requires s.Valid() && n + 3 <= |s.bytes|
    ensures |r| == n
  {
    if n == 0 then [] else Targets(s, n - 1) + [Abs(s, s.AddressOf(n - 1))]
  }

  lemma {:induction false} TargetsAt(s: Span, n: nat, i: nat)
    requires s.Valid() && n + 3 <= |s.bytes| && i < n
    ensures Targets(s, n)[i] == Abs(s, s.AddressOf(i))
  {
    if i < n - 1 {
      TargetsAt(s, n - 1, i);
    }
  }

  /** Offset `i` of `s` holds a displacement that resolves to `target`:
      `abs(base + i) == target`. */
  predicate IsXrefAt(s: Span, target: Address, i: nat) {
    s.Valid() && i + 4 <= |s.bytes| && Targets(s, |s.bytes| - 3)[i] == target
  }

  function XrefHit(s: Span, target: Address): nat -> bool {
    (i: nat) => IsXrefAt(s, target, i)
  }

  /** Storing at offset `i` the displacement from `base + i + 4` to `target`
      makes offset `i` an xref to `target`: resolution inverts encoding. */
  lemma EncodedXrefResolves(s: Span, target: Address, i: nat)
    requires s.Valid() && i + 4 <= |s.bytes|
    requires I32_MIN <= target as int - (s.base as int + i + 4) < I32_LIMIT
    requires s.bytes[i..i + 4] == EncodeI32(target as int - (s.base as int + i + 4))
    ensures IsXrefAt(s, target, i)
  {
    var d := target as int - (s.base as int + i + 4);
    TargetsAt(s, |s.bytes| - 3, i);
    DisplacementOfEncoded(d);
    DisplacementWindow(s.bytes, i);
    assert Displacement(s.bytes, i) == Displacement(s.bytes[i..i + 4], 0);
  }

  /** A displacement depends only on its own four bytes. */
  lemma DisplacementWindow(b: seq<Byte>, i: nat)
    requires i + 4 <= |b|
    ensures Displacement(b, i) == Displacement(b[i..i + 4], 0)
  {
    var w := b[i..i + 4];
    assert w[0] == b[i] && w[1] == b[i + 1] && w[2] == b[i + 2] && w[3] == b[i + 3];
  }

  /** The sub-slice `&mem[d..]` reads the same memory. */
  lemma AbsDrop(s: Span, d: nat, address: Address)
    requires s.Valid() && d <= |s.bytes|
    requires s.base as int + d <= address as int && address as int - s.base as int + 4 <= |s.bytes|
    ensures Abs(s.Drop(d), address) == Abs(s, address)
  {
    var sub := s.Drop(d);
    var x := (address - sub.base) as int;
    assert sub.bytes[x] == s.bytes[x + d] && sub.bytes[x + 1] == s.bytes[x + d + 1];
    assert sub.bytes[x + 2] == s.bytes[x + d + 2] && sub.bytes[x + 3] == s.bytes[x + d + 3];
    assert Displacement(sub.bytes, x) == Displacement(s.bytes, x + d);
  }

  /** An xref at offset `i` is a candidate offset whose `abs` is the target. */
  lemma XrefAtIsAbs(s: Span, target: Address, i: nat)
    requires s.Valid()
    ensures IsXrefAt(s, target, i) <==> i + 4 <= |s.bytes| && Abs(s, s.AddressOf(i)) == target
  {
    if i + 4 <= |s.bytes| {
      TargetsAt(s, |s.bytes| - 3, i);
    }
  }

  /** The sub-slice `&mem[d..]` sees the same xrefs, `d` offsets earlier. */
  lemma XrefAtDrop(s: Span, target: Address, d: nat, x: nat)
    requires s.Valid() && d <= |s.bytes|
    ensures IsXrefAt(s.Drop(d), target, x) == IsXrefAt(s, target, x + d)
  {
    var sub := s.Drop(d);
    XrefAtIsAbs(sub, target, x);
    XrefAtIsAbs(s, target, x + d);
    if x + d + 4 <= |s.bytes| {
      assert sub.AddressOf(x) == s.AddressOf(x + d);
      AbsDrop(s, d, s.AddressOf(x + d));
    }
  }

  lemma XrefHitDrop(s: Span, target: Address, d: nat)
    requires s.Valid() && d <= |s.bytes|
    ensures forall x: nat :: XrefHit(s.Drop(d), target)(x) == XrefHit(s, target)(x + d)
  {
    forall x: nat
      ensures XrefHit(s.Drop(d), target)(x) == XrefHit(s, target)(x + d)
    {
      XrefAtDrop(s, target, d, x);
    }
  }

  /** `xref` on the sub-slice `&mem[i..]` finds the first xref of the whole
      span at or after offset `i`. */
  lemma XrefOnDrop(s: Span, target: Address, i: nat)
    requires s.Valid() && i + 4 <= |s.bytes|
    ensures s.Drop(i).AddressOpt(First(XrefHit(s.Drop(i), target), 0, |s.bytes| - i - 3))
         == s.AddressOpt(First(XrefHit(s, target), i, |s.bytes| - 3))
  {
    XrefHitDrop(s, target, i);
    DropFirst(s, XrefHit(s.Drop(i), target), XrefHit(s, target), i, |s.bytes| - 3);
  }

  /** One round of `xrefs`: given what `xref` returned on `&mem[i..]`, the
      list of xrefs found so far grows by exactly that address, or there is
      no xref left. */
  lemma XrefsRound(s: Span, target: Address, i: nat, r: Option<Address>)
    requires s.Valid() && i + 4 <= |s.bytes|
    requires r == s.Drop(i).AddressOpt(First(XrefHit(s.Drop(i), target), 0, |s.bytes| - i - 3))
    ensures r.Some? ==> s.base <= r.value && i <= (r.value - s.base) as int < |s.bytes| - 3
    ensures r.Some? ==>
      s.Addresses(Below(XrefHit(s, target), (r.value - s.base) as int + 1))
        == s.Addresses(Below(XrefHit(s, target), i)) + [r.value]
    ensures r.None? ==>
      s.Addresses(Below(XrefHit(s, target), |s.bytes| - 3)) == s.Addresses(Below(XrefHit(s, target), i))
  {
    XrefOnDrop(s, target, i);
    ResumeAt(s, XrefHit(s, target), i, |s.bytes| - 3, r);
  }

  /** `xref(mem, address)`: the first offset of the span, from 0 up to and
      including `len - 4`, whose displacement resolves to `target`. */
  method Xref(s: Span, target: Address) returns (r: Option<Address>)
    requires s.Valid() && |s.bytes| >= 4
    ensures r == s.AddressOpt(First(XrefHit(s, target), 0, |s.bytes| - 3))
  {
    var i := 0;
    while i <= |s.bytes| - 4
      invariant 0 <= i <= |s.bytes| - 3
      invariant forall k :: 0 <= k < i ==> !IsXrefAt(s, target, k)
    {
      var possibleRef := s.AddressOf(i);
      TargetsAt(s, |s.bytes| - 3, i);
      if Abs(s, possibleRef) == target {
        FirstAt(XrefHit(s, target), 0, |s.bytes| - 3, i);
        return Some(possibleRef);
      }
      i := i + 1;
    }
    FirstIsLeast(XrefHit(s, target), 0, |s.bytes| - 3);
    return None;
  }

  /** `xrefs(mem, address)`: every xref to `target` in the span, in ascending
      order, found by restarting `xref` one byte past the previous hit. */
  method Xrefs(s: Span, target: Address) returns (refs: seq<Address>)
    requires s.Valid() && |s.bytes| >= 4
    ensures refs == s.Addresses(Below(XrefHit(s, target), |s.bytes| - 3))
  {
    var hit := XrefHit(s, target);
    refs := [];
    var i := 0;
    while i <= |s.bytes| - 4
      invariant 0 <= i <= |s.bytes| - 3
      invariant refs == s.Addresses(Below(hit, i))
    {
      var r := Xref(s.Drop(i), target);
      XrefsRound(s, target, i, r);
      if r.Some? {
        refs := refs + [r.value];
        i := (r.value - s.base) as int + 1;
      } else {
        break;
      }
    }
  }

  /** What `xref` returns, stated through `abs`: the address of the first
      candidate offset (0 up to and including len - 4) whose displacement
      resolves to `target`, and nothing exactly when no candidate does. */
  lemma XrefIsFirstXref(s: Span, target: Address)
    requires s.Valid() && |s.bytes| >= 4
    ensures var r := s.AddressOpt(First(XrefHit(s, target), 0, |s.bytes| - 3));
      r.Some? ==>
        s.base <= r.value && (r.value - s.base) as int <= |s.bytes| - 4 && Abs(s, r.value) == target &&
        forall k :: 0 <= k < (r.value - s.base) as int ==> Abs(s, s.AddressOf(k)) != target
    ensures var r := s.AddressOpt(First(XrefHit(s, target), 0, |s.bytes| - 3));
      r.None? <==> forall k :: 0 <= k <= |s.bytes| - 4 ==> Abs(s, s.AddressOf(k)) != target
  {
    var n := |s.bytes| - 3;
    forall k | 0 <= k < n
      ensures XrefHit(s, target)(k) <==> Abs(s, s.AddressOf(k)) == target
    {
      TargetsAt(s, n, k);
    }
    FirstIsLeast(XrefHit(s, target), 0, n);
  }

  /** What `xrefs` returns, stated through `abs`: exactly the addresses of
      the candidate offsets whose displacement resolves to `target`, each
      once, in strictly ascending order. */
  lemma XrefsAreAllXrefs(s: Span, target: Address)
    requires s.Valid() && |s.bytes| >= 4
    ensures var refs := s.Addresses(Below(XrefHit(s, target), |s.bytes| - 3));
      forall k :: 0 <= k <= |s.bytes| - 4 ==> (s.AddressOf(k) in refs <==> Abs(s, s.AddressOf(k)) == target)
    ensures var refs := s.Addresses(Below(XrefHit(s, target), |s.bytes| - 3));
      forall a :: a in refs ==> s.base <= a && (a - s.base) as int <= |s.bytes| - 4
    ensures var refs := s.Addresses(Below(XrefHit(s, target), |s.bytes| - 3));
      forall j, k :: 0 <= j < k < |refs| ==> refs[j] < refs[k]
  {
    var n := |s.bytes| - 3;
    var hit := XrefHit(s, target);
    AddressesOfHits(s, hit, n);
    AddressesOfHitsAscending(s, hit, n);
    forall k | 0 <= k < n
      ensures hit(k) <==> Abs(s, s.AddressOf(k)) == target
    {
      TargetsAt(s, n, k);
    }
  }

  /** The first example of the `abs` test: the bytes 12 34 56 78 store
      0x78563412, so `abs` returns the address plus 0x78563416. */
  lemma AbsExample(a: Address)
    requires a as int + 0x78563416 < ADDRESS_SPACE
    ensures Abs(Span(a, [0x12, 0x34, 0x56, 0x78]), a) as int == a as int + 0x78563416
  {
  }

  /** The second example of the `abs` test: a stored -42 resolves to the
      address minus 42 plus 4. */
  lemma AbsNegativeExample(a: Address)
    requires 38 <= a as int && a as int + 4 < ADDRESS_SPACE
    ensures Abs(Span(a, EncodeI32(-42)), a) as int == a as int - 42 + 4
  {
    DisplacementOfEncoded(-42);
  }

  /** The `xref` and `xrefs` tests: in 01 02 03 04 12 34 56 78 the only
      reference to address + 4 + 0x78563416 is at offset 4, the last
      candidate. */
  lemma XrefExample(a: Address)
    requires a as int + 4 + 0x78563416 < ADDRESS_SPACE
    ensures var s := Span(a, [1, 2, 3, 4, 0x12, 0x34, 0x56, 0x78]);
      var target := (a as int + 4 + 0x78563416) as Address;
      s.AddressOpt(First(XrefHit(s, target), 0, 5)) == Some(s.AddressOf(4)) &&
      |s.Addresses(Below(XrefHit(s, target), 5))| == 1
  {
    var s := Span(a, [1, 2, 3, 4, 0x12, 0x34, 0x56, 0x78]);
    var target := (a as int + 4 + 0x78563416) as Address;
    var hit := XrefHit(s, target);
    assert Displacement(s.bytes, 0) == 0x04030201;
    assert Displacement(s.bytes, 1) == 0x12040302;
    assert Displacement(s.bytes, 2) == 0x34120403;
    assert Displacement(s.bytes, 3) == 0x56341204;
    assert Displacement(s.bytes, 4) == 0x78563412;
    forall k | 0 <= k < 5
      ensures hit(k) <==> k == 4
    {
      TargetsAt(s, 5, k);
    }
    FirstAt(hit, 0, 5, 4);
    BelowSkip(hit, 0, 4);
    assert Below(hit, 5) == [4];
  }
}

/** Addresses and spans of the target address space (64-bit target).
    A span is the model of a `&[u8]` built over raw memory: the address of
    its first byte plus the bytes themselves, so that every raw read of the
    scanner becomes an index into `bytes`. */
module MemorySpan {
  import opened Wrappers
  import opened Offsets

  /** Size of the 64-bit address space: `usize` arithmetic wraps modulo this. */
  const ADDRESS_SPACE: int := 0x1_0000_0000_0000_0000

  /** A `usize` address. */
  newtype Address = x: int | 0 <= x < 0x1_0000_0000_0000_0000

  /** A `u8`. */
  newtype Byte = x: int | 0 <= x < 0x100

  datatype Span = Span(base: Address, bytes: seq<Byte>) {

    /** A slice never wraps around the address space, and the address one
        past its last byte is still representable. */
    predicate Valid() {
      base as int + |bytes| < ADDRESS_SPACE
    }

    /** The address `base + i` of offset `i` (Rust's `start + i`). */
    function AddressOf(i: nat): (a: Address)
      requires Valid() && i <= |bytes|
      ensures a as int == base as int + i
    {
      (base as int + i) as Address
    }

    /** The sub-slice `&mem[i..]`: same memory, base moved by `i`. */
    function Drop(i: nat): (r: Span)
      requires Valid() && i <= |bytes|
      ensures r.Valid() && r.base as int == base as int + i && r.bytes == bytes[i..]
    {
      Span(AddressOf(i), bytes[i..])
    }

    /** Turns a found offset into the address the API returns. */
    function AddressOpt(o: Option<nat>): Option<Address>
      requires Valid() && (o.Some? ==> o.value <= |bytes|)
    {
      match o
      case None => None
      case Some(i) => Some(AddressOf(i))
    }

    /** Turns a list of found offsets into the list of addresses the API returns. */
    function Addresses(offsets: seq<nat>): (r: seq<Address>)
      requires Valid() && forall o :: o in offsets ==> o <= |bytes|
      ensures |r| == |offsets|
    {
      if offsets == [] then []
      else
        var prefix := offsets[..|offsets| - 1];
        assert forall o :: o in prefix ==> o in offsets;
        assert offsets[|offsets| - 1] in offsets;
        Addresses(prefix) + [AddressOf(offsets[|offsets| - 1])]
    }
  }

  /** The k-th address is the address of the k-th offset. */
  lemma {:induction false} AddressesAt(s: Span, offsets: seq<nat>, k: nat)
    requires s.Valid() && forall o :: o in offsets ==> o <= |s.bytes|
    requires k < |offsets|
    ensures s.Addresses(offsets)[k] as int == s.base as int + offsets[k]
  {
    var prefix := offsets[..|offsets| - 1];
    assert forall o :: o in prefix ==> o in offsets;
    if k < |offsets| - 1 {
      AddressesAt(s, prefix, k);
    }
  }

  /** Appending an offset appends its address. */
  lemma AddressesAppend(s: Span, offsets: seq<nat>, x: nat)
    requires s.Valid() && x <= |s.bytes| && forall o :: o in offsets ==> o <= |s.bytes|
    ensures s.Addresses(offsets + [x]) == s.Addresses(offsets) + [s.AddressOf(x)]
  {
    assert (offsets + [x])[..|offsets|] == offsets;
  }

  /** Searching the sub-slice `&mem[i..]`, whose hit predicate `sub` is that
      of the whole span moved by `i`, returns the address of the first hit of
      the whole span at or after offset `i`. */
  lemma DropFirst(s: Span, sub: nat -> bool, hit: nat -> bool, i: nat, n: nat)
    requires s.Valid() && i <= n <= |s.bytes|
    requires forall x: nat :: sub(x) == hit(x + i)
    ensures s.Drop(i).AddressOpt(First(sub, 0, n - i)) == s.AddressOpt(First(hit, i, n))
  {
    ShiftFirst(sub, hit, i, n - i);
  }

  /** The addresses of two offsets. */
  lemma AddressesOfTwo(s: Span, x: nat, y: nat)
    requires s.Valid() && x <= |s.bytes| && y <= |s.bytes|
    ensures s.Addresses([x, y]) == [s.AddressOf(x), s.AddressOf(y)]
  {
    AddressesAppend(s, [], x);
    AddressesAppend(s, [x], y);
    assert [] + [x] == [x] && [x] + [y] == [x, y];
  }

  /** The address-level form of `Offsets.BelowResume`: searching again from
      offset `i` appends the address of the next hit to the addresses found
      below `i`, or finds that none are left. */
  lemma AddressesResume(s: Span, hit: nat -> bool, i: nat, n: nat)
    requires s.Valid() && i <= n <= |s.bytes|
    ensures First(hit, i, n).Some? ==>
      s.Addresses(Below(hit, First(hit, i, n).value + 1))
        == s.Addresses(Below(hit, i)) + [s.AddressOf(First(hit, i, n).value)]
    ensures First(hit, i, n).None? ==> s.Addresses(Below(hit, n)) == s.Addresses(Below(hit, i))
  {
    BelowResume(hit, i, n);
    if First(hit, i, n).Some? {
      AddressesAppend(s, Below(hit, i), First(hit, i, n).value);
    }
  }

  /** One round of a "search again one past the previous hit" loop, once the
      search has returned `r`, the address of the first hit at or after `i`. */
  lemma ResumeAt(s: Span, hit: nat -> bool, i: nat, n: nat, r: Option<Address>)
    requires s.Valid() && i <= n <= |s.bytes|
    requires r == s.AddressOpt(First(hit, i, n))
    ensures r.Some? ==> s.base <= r.value && i <= (r.value - s.base) as int < n
    ensures r.Some? ==>
      s.Addresses(Below(hit, (r.value - s.base) as int + 1)) == s.Addresses(Below(hit, i)) + [r.value]
    ensures r.None? ==> s.Addresses(Below(hit, n)) == s.Addresses(Below(hit, i))
  {
    AddressesResume(s, hit, i, n);
  }

  /** The addresses of the hits below `n` are exactly the addresses of the
      offsets below `n` that are hits. */
  lemma AddressesOfHits(s: Span, hit: nat -> bool, n: nat)
    requires s.Valid() && n <= |s.bytes|
    ensures forall k :: 0 <= k < n ==> (s.AddressOf(k) in s.Addresses(Below(hit, n)) <==> hit(k))
  {
    var offsets := Below(hit, n);
    var refs := s.Addresses(offsets);
    BelowMembers(hit, n);
    forall k | 0 <= k < n
      ensures s.AddressOf(k) in refs <==> hit(k)
    {
      if hit(k) {
        var j :| 0 <= j < |offsets| && offsets[j] == k;
        AddressesAt(s, offsets, j);
        assert refs[j] == s.AddressOf(k);
      }
      if s.AddressOf(k) in refs {
        var j :| 0 <= j < |refs| && refs[j] == s.AddressOf(k);
        AddressesAt(s, offsets, j);
        assert offsets[j] == k;
      }
    }
  }

  /** The addresses of the hits below `n` lie in the first `n` bytes of the
      span and are strictly ascending. */
  lemma AddressesOfHitsAscending(s: Span, hit: nat -> bool, n: nat)
    requires s.Valid() && n <= |s.bytes|
    ensures forall a :: a in s.Addresses(Below(hit, n)) ==> s.base <= a && (a - s.base) as int < n
    ensures forall j, k :: 0 <= j < k < |s.Addresses(Below(hit, n))| ==>
      s.Addresses(Below(hit, n))[j] < s.Addresses(Below(hit, n))[k]
  {
    var offsets := Below(hit, n);
    var refs := s.Addresses(offsets);
    BelowAscending(hit, n);
    forall j | 0 <= j < |refs|
      ensures refs[j] as int == s.base as int + offsets[j]
    {
      AddressesAt(s, offsets, j);
    }
    forall a | a in refs
      ensures s.base <= a && (a - s.base) as int < n
    {
      var j :| 0 <= j < |refs| && refs[j] == a;
      assert offsets[j] in offsets;
    }
  }
}

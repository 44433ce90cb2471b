/** The three searches the scanner and the xref resolver perform, stated once
    over an arbitrary "hit" predicate on offsets: the first hit, the last hit,
    and every hit of a range. The functions only promise to stay in range;
    what they compute is stated by the lemmas after them. */
module Offsets {
  import opened Wrappers

  /** The least offset in [lo, hi) where `hit` holds. */
  function First(hit: nat -> bool, lo: nat, hi: nat): (r: Option<nat>)
    decreases hi - lo
    ensures r.Some? ==> lo <= r.value < hi
  {
    if hi <= lo then None
    else if hit(lo) then Some(lo)
    else First(hit, lo + 1, hi)
  }

  /** The greatest offset in [lo, hi) where `hit` holds. */
  function Last(hit: nat -> bool, lo: nat, hi: nat): (r: Option<nat>)
    decreases hi - lo
    ensures r.Some? ==> lo <= r.value < hi
  {
    if hi <= lo then None
    else if hit(hi - 1) then Some(hi - 1)
    else Last(hit, lo, hi - 1)
  }

  /** Every offset below `n` where `hit` holds, in ascending order. */
  function Below(hit: nat -> bool, n: nat): (r: seq<nat>)
    ensures forall x {:trigger x in r} :: x in r ==> x < n
  {
    if n == 0 then []
    else Below(hit, n - 1) + (if hit(n - 1) then [n - 1] else [])
  }

  /** `First` finds a hit, and no hit comes before it; it finds nothing
      exactly when the range holds no hit. */
  lemma {:induction false} FirstIsLeast(hit: nat -> bool, lo: nat, hi: nat)
    ensures First(hit, lo, hi).Some? ==> hit(First(hit, lo, hi).value)
    ensures First(hit, lo, hi).Some? ==> forall x :: lo <= x < First(hit, lo, hi).value ==> !hit(x)
    ensures First(hit, lo, hi).None? ==> forall x :: lo <= x < hi ==> !hit(x)
    decreases hi - lo
  {
    if lo < hi && !hit(lo) {
      FirstIsLeast(hit, lo + 1, hi);
    }
  }

  /** A hit at `k` with none before it in the range is what `First` returns. */
  lemma FirstAt(hit: nat -> bool, lo: nat, hi: nat, k: nat)
    requires lo <= k < hi && hit(k)
    requires forall x :: lo <= x < k ==> !hit(x)
    ensures First(hit, lo, hi) == Some(k)
  {
    FirstIsLeast(hit, lo, hi);
  }

  /** `Last` finds a hit, and no hit comes after it; it finds nothing
      exactly when the range holds no hit. */
  lemma {:induction false} LastIsGreatest(hit: nat -> bool, lo: nat, hi: nat)
    ensures Last(hit, lo, hi).Some? ==> hit(Last(hit, lo, hi).value)
    ensures Last(hit, lo, hi).Some? ==> forall x :: Last(hit, lo, hi).value < x < hi ==> !hit(x)
    ensures Last(hit, lo, hi).None? ==> forall x :: lo <= x < hi ==> !hit(x)
    decreases hi - lo
  {
    if lo < hi && !hit(hi - 1) {
      LastIsGreatest(hit, lo, hi - 1);
    }
  }

  /** A hit at `k` with none after it in the range is what `Last` returns. */
  lemma LastAt(hit: nat -> bool, lo: nat, hi: nat, k: nat)
    requires lo <= k < hi && hit(k)
    requires forall x :: k < x < hi ==> !hit(x)
    ensures Last(hit, lo, hi) == Some(k)
  {
    LastIsGreatest(hit, lo, hi);
  }

  /** `Below` lists exactly the hits below `n`. */
  lemma {:induction false} BelowMembers(hit: nat -> bool, n: nat)
    ensures forall x: nat :: x in Below(hit, n) <==> x < n && hit(x)
  {
    if n > 0 {
      BelowMembers(hit, n - 1);
    }
  }

  /** The hits are listed in strictly ascending order, so without repetition. */
  lemma {:induction false} BelowAscending(hit: nat -> bool, n: nat)
    ensures forall a, b :: 0 <= a < b < |Below(hit, n)| ==> Below(hit, n)[a] < Below(hit, n)[b]
  {
    if n > 0 {
      var prefix := Below(hit, n - 1);
      BelowAscending(hit, n - 1);
      assert forall a :: 0 <= a < |prefix| ==> prefix[a] in prefix;
    }
  }

  /** Shifting an offset by `d`. */
  function Shift(o: Option<nat>, d: nat): Option<nat> {
    match o
    case None => None
    case Some(x) => Some(x + d)
  }

  /** A range with no hit adds nothing to the list of hits. */
  lemma {:induction false} BelowSkip(hit: nat -> bool, i: nat, k: nat)
    requires i <= k
    requires forall x :: i <= x < k ==> !hit(x)
    ensures Below(hit, k) == Below(hit, i)
    decreases k - i
  {
    if i < k {
      BelowSkip(hit, i, k - 1);
    }
  }

  /** Searching again from `i` extends the hits found below `i` by exactly
      the first hit at or after `i`, or finds that none are left. This is
      what makes "restart one past the previous hit" collect every hit. */
  lemma BelowResume(hit: nat -> bool, i: nat, n: nat)
    requires i <= n
    ensures First(hit, i, n).Some? ==>
      Below(hit, First(hit, i, n).value + 1) == Below(hit, i) + [First(hit, i, n).value]
    ensures First(hit, i, n).None? ==> Below(hit, n) == Below(hit, i)
  {
    FirstIsLeast(hit, i, n);
    match First(hit, i, n)
    case None =>
      BelowSkip(hit, i, n);
    case Some(k) =>
      BelowSkip(hit, i, k);
  }

  /** The first hit is the head of the list of all hits. */
  lemma FirstIsHeadOfBelow(hit: nat -> bool, n: nat)
    ensures First(hit, 0, n) == if Below(hit, n) == [] then None else Some(Below(hit, n)[0])
  {
    FirstIsLeast(hit, 0, n);
    match First(hit, 0, n)
    case None =>
      BelowSkip(hit, 0, n);
    case Some(k) =>
      BelowSkip(hit, 0, k);
      assert Below(hit, k) == [];
      assert Below(hit, k + 1) == [k];
      BelowPrefix(hit, k + 1, n);
  }

  /** Hits below `m` are a prefix of the hits below any larger `n`. */
  lemma {:induction false} BelowPrefix(hit: nat -> bool, m: nat, n: nat)
    requires m <= n
    ensures Below(hit, m) <= Below(hit, n)
    decreases n - m
  {
    if m < n {
      BelowPrefix(hit, m, n - 1);
    }
  }

  /** Searching a range through a predicate that reads the original one `d`
      positions further on finds the original first hit, moved back by `d`.
      This is what searching the sub-slice `&mem[d..]` amounts to. */
  lemma ShiftFirst(sub: nat -> bool, hit: nat -> bool, d: nat, m: nat)
    requires forall x: nat :: sub(x) == hit(x + d)
    ensures Shift(First(sub, 0, m), d) == First(hit, d, d + m)
  {
    FirstIsLeast(sub, 0, m);
    FirstIsLeast(hit, d, d + m);
    match First(hit, d, d + m)
    case None =>
      assert forall x: nat :: x < m ==> !sub(x);
    case Some(k) =>
      assert sub(k - d);
      assert forall x: nat :: x < k - d ==> !sub(x);
  }
}

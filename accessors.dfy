/** The three accessors of the `At` trait. Each resolves the index once
    with `check_index` and either accesses the element at the resolved
    offset or fails. In checked mode (the default) a failure is the panic
    of `panic_bounds_check`, modelled as an `OutOfBounds` outcome carrying
    the slice length and the original index. In unchecked mode (the
    `unsafe-unchecked` feature) the caller must guarantee that the index
    resolves, which is a precondition of the `...Unchecked` members. */
module Accessors {
  import opened Wrappers
  import opened Integers
  import opened Resolver

  /** The outcome of a checked access: the result, or the panic of
      `panic_bounds_check`, which reports the length of the slice and the
      index as the caller gave it, not any wrapped candidate. */
  datatype Access<T> = Ok(value: T) | OutOfBounds(len: nat, idx: Index)

  /** A reference to one element: the slice it points into and the offset
      of the element. Two references are equal exactly when they name the
      same storage location. */
  datatype Place<T> = Place(slice: array<T>, offset: nat)

  /** `at`: a copy of the element the index designates, or the panic. */
  function At<T>(t: Target, s: seq<T>, idx: Index): (r: Access<T>)
    requires idx.InRange(t)
    requires t.IsUsize(|s|)
    ensures r.Ok? <==> InWindow(t, idx.value, |s|)
    ensures r.Ok? ==> r.value == s[Designated(idx.value, |s|)]
    ensures r.OutOfBounds? ==> r.len == |s| && r.idx == idx
  {
    CheckIndexMatchesReference(t, idx, |s|);
    match CheckIndex(t, idx, |s|)
    case Some(i) => Ok(s[i])
    case None => OutOfBounds(|s|, idx)
  }

  /** `ref_at`: a reference to the element the index designates, or the
      panic. The reference points into the slice itself. */
  function RefAt<T>(t: Target, a: array<T>, idx: Index): (r: Access<Place<T>>)
    requires idx.InRange(t)
    requires t.IsUsize(a.Length)
    ensures r.Ok? <==> InWindow(t, idx.value, a.Length)
    ensures r.Ok? ==> r.value.slice == a && r.value.offset == Designated(idx.value, a.Length) < a.Length
    ensures r.OutOfBounds? ==> r.len == a.Length && r.idx == idx
  {
    CheckIndexMatchesReference(t, idx, a.Length);
    match CheckIndex(t, idx, a.Length)
    case Some(i) => Ok(Place(a, i))
    case None => OutOfBounds(a.Length, idx)
  }

  /** `mut_at` followed by a store through the reference it returns: the
      element the index designates is returned as it was and replaced by
      `x`; nothing else in the slice changes. On the panic the slice is
      left untouched. */
  method MutAt<T>(t: Target, a: array<T>, idx: Index, x: T) returns (r: Access<T>)
    requires idx.InRange(t)
    requires t.IsUsize(a.Length)
    modifies a
    ensures r.Ok? <==> InWindow(t, idx.value, a.Length)
    ensures r.Ok? ==> r.value == old(a[Designated(idx.value, a.Length)])
    ensures r.Ok? ==> a[..] == old(a[..])[Designated(idx.value, a.Length) := x]
    ensures r.OutOfBounds? ==> r.len == a.Length && r.idx == idx && a[..] == old(a[..])
  {
    CheckIndexMatchesReference(t, idx, a.Length);
    match CheckIndex(t, idx, a.Length)
    case Some(i) =>
      r := Ok(a[i]);
      a[i] := x;
    case None =>
      r := OutOfBounds(a.Length, idx);
  }

  // ---------------------------------------------------------------------
  // Unchecked mode: reaching the failure branch is the caller's fault, so
  // the index must designate an element.

  /** `at` with bounds checks disabled. */
  function AtUnchecked<T>(t: Target, s: seq<T>, idx: Index): (r: T)
    requires idx.InRange(t)
    requires t.IsUsize(|s|) && InWindow(t, idx.value, |s|)
    ensures r == s[Designated(idx.value, |s|)]
  {
    CheckIndexMatchesReference(t, idx, |s|);
    s[CheckIndex(t, idx, |s|).value]
  }

  /** `ref_at` with bounds checks disabled. */
  function RefAtUnchecked<T>(t: Target, a: array<T>, idx: Index): (r: Place<T>)
    requires idx.InRange(t)
    requires t.IsUsize(a.Length) && InWindow(t, idx.value, a.Length)
    ensures r.slice == a && r.offset == Designated(idx.value, a.Length) < a.Length
  {
    CheckIndexMatchesReference(t, idx, a.Length);
    Place(a, CheckIndex(t, idx, a.Length).value)
  }

  /** `mut_at` with bounds checks disabled, followed by a store of `x`. */
  method MutAtUnchecked<T>(t: Target, a: array<T>, idx: Index, x: T) returns (previous: T)
    requires idx.InRange(t)
    requires t.IsUsize(a.Length) && InWindow(t, idx.value, a.Length)
    modifies a
    ensures previous == old(a[Designated(idx.value, a.Length)])
    ensures a[..] == old(a[..])[Designated(idx.value, a.Length) := x]
  {
    CheckIndexMatchesReference(t, idx, a.Length);
    var i := CheckIndex(t, idx, a.Length).value;
    previous := a[i];
    a[i] := x;
  }

  // ---------------------------------------------------------------------
  // How the accessors relate to each other and to the resolver.

  /** Each accessor uses the offset `check_index` produces; on `None` it
      fails with the length and the unresolved index. */
  lemma AccessorsFollowResolver<T>(t: Target, a: array<T>, idx: Index)
    requires idx.InRange(t)
    requires t.IsUsize(a.Length)
    ensures CheckIndex(t, idx, a.Length).Some? ==>
      At(t, a[..], idx) == Ok(a[CheckIndex(t, idx, a.Length).value]) &&
      RefAt(t, a, idx) == Ok(Place(a, CheckIndex(t, idx, a.Length).value))
    ensures CheckIndex(t, idx, a.Length).None? ==>
      At(t, a[..], idx) == OutOfBounds(a.Length, idx) &&
      RefAt(t, a, idx) == OutOfBounds(a.Length, idx)
  {
    CheckIndexMatchesReference(t, idx, a.Length);
  }

  /** Reading through the reference `ref_at` returns gives the value `at`
      copies. */
  lemma RefAtDerefIsAt<T>(t: Target, a: array<T>, idx: Index)
    requires idx.InRange(t)
    requires t.IsUsize(a.Length)
    ensures RefAt(t, a, idx).Ok? <==> At(t, a[..], idx).Ok?
    ensures RefAt(t, a, idx).Ok? ==> a[RefAt(t, a, idx).value.offset] == At(t, a[..], idx).value
    ensures RefAt(t, a, idx).OutOfBounds? ==>
      RefAt(t, a, idx).len == At(t, a[..], idx).len && RefAt(t, a, idx).idx == At(t, a[..], idx).idx
  {
  }

  /** The same index always yields the same storage location, whatever
      the slice holds and whichever integer type expresses the index. */
  lemma RefAtStable<T>(t: Target, a: array<T>, i: Index, j: Index)
    requires i.InRange(t) && j.InRange(t)
    requires t.IsUsize(a.Length) && i.value == j.value
    ensures RefAt(t, a, i).Ok? ==> RefAt(t, a, j) == RefAt(t, a, i)
  {
  }

  /** In unchecked mode the accessors return what checked mode returns on
      success. */
  lemma UncheckedAgreesWithChecked<T>(t: Target, a: array<T>, idx: Index)
    requires idx.InRange(t)
    requires t.IsUsize(a.Length) && InWindow(t, idx.value, a.Length)
    ensures At(t, a[..], idx) == Ok(AtUnchecked(t, a[..], idx))
    ensures RefAt(t, a, idx) == Ok(RefAtUnchecked(t, a, idx))
  {
  }
}

/** The index resolver `check_index`: turns an index of any integer type,
    possibly negative (counted from the end), and a slice length into an
    offset inside the slice, or into nothing. */
module Resolver {
  import opened Wrappers
  import opened Integers

  /** The candidate offset, before the final bounds check: the index itself
      when it converts to `usize`; otherwise, when it converts to `isize`,
      the length plus the (negative) index with wrap-around; otherwise no
      candidate (the `?` on the `isize` conversion returns early). */
  function Candidate(t: Target, idx: Index, len: int): (r: Option<int>)
    requires idx.InRange(t)
    requires t.IsUsize(len)
    ensures r.None? <==> !t.IsUsize(idx.value) && !t.IsIsize(idx.value)
    ensures r.Some? ==> t.IsUsize(r.value)
  {
    match TryIntoUsize(t, idx)
    case Some(unsigned) => Some(unsigned)
    case None =>
      var signed :- TryIntoIsize(t, idx);
      Some(WrappingAddSigned(t, len, signed))
  }

  /** `check_index`: the candidate is accepted only when it is below `len`,
      so a resolved offset always lies inside the slice. */
  function CheckIndex(t: Target, idx: Index, len: int): (r: Option<int>)
    requires idx.InRange(t)
    requires t.IsUsize(len)
    ensures r.Some? ==> 0 <= r.value < len
  {
    var resolved :- Candidate(t, idx, len);
    if resolved < len then Some(resolved) else None
  }

  // ---------------------------------------------------------------------
  // Reference definition: what a from-the-end index means.

  /** The index values that designate an element of a slice of length
      `len` on target `t`: a non-negative value below `len`, or a negative
      value that fits in `isize` and counts at most `len` elements back
      from the end. */
  predicate InWindow(t: Target, v: int, len: nat) {
    (0 <= v < len) || (t.IsizeMin() <= v < 0 && 0 <= len + v)
  }

  /** The offset a value designates: itself, or counted back from the end. */
  function Designated(v: int, len: nat): int {
    if v >= 0 then v else len + v
  }

  // ---------------------------------------------------------------------
  // The case analysis of the resolver.

  /** A non-negative index that fits in `usize` resolves to itself exactly
      when it is below `len`. */
  lemma NonNegativeIndex(t: Target, idx: Index, len: int)
    requires idx.InRange(t)
    requires t.IsUsize(len) && t.IsUsize(idx.value)
    ensures CheckIndex(t, idx, len) == if idx.value < len then Some(idx.value) else None
  {
  }

  /** The wrapping addition of a negative `isize` to a length: when the
      index counts at most `len` back it is the exact sum, and otherwise it
      wraps into `[len, usize::MAX]`, whatever the size of `len`, including
      lengths above `isize::MAX`; more sharply, it wraps into
      `[len + isize::MAX + 1, usize::MAX]` (the argument given beside the
      addition in the source). */
  lemma WrappedNegative(t: Target, len: int, s: int)
    requires t.IsUsize(len) && t.IsIsize(s) && s < 0
    ensures 0 <= len + s ==> WrappingAddSigned(t, len, s) == len + s
    ensures len + s < 0 ==> len <= WrappingAddSigned(t, len, s) <= t.UsizeMax()
    ensures len + s < 0 ==> len + t.IsizeMax() + 1 <= WrappingAddSigned(t, len, s)
  {
    WrappingAddSignedIsModular(t, len, s);
    if len + s < 0 {
      SmallMod(len + s, t.Modulus());
    }
  }

  /** A negative index counting at most `len` back resolves to `len + i`. */
  lemma NegativeIndexInRange(t: Target, idx: Index, len: int)
    requires idx.InRange(t)
    requires t.IsUsize(len)
    requires t.IsizeMin() <= idx.value < 0 && 0 <= len + idx.value
    ensures CheckIndex(t, idx, len) == Some(len + idx.value)
  {
    WrappedNegative(t, len, idx.value);
  }

  /** A negative `isize` index counting more than `len` back is rejected:
      its wrapped candidate is never below `len`. */
  lemma NegativeIndexOutOfRange(t: Target, idx: Index, len: int)
    requires idx.InRange(t)
    requires t.IsUsize(len)
    requires t.IsizeMin() <= idx.value < 0 && len + idx.value < 0
    ensures Candidate(t, idx, len).Some? && Candidate(t, idx, len).value >= len
    ensures CheckIndex(t, idx, len) == None
  {
    WrappedNegative(t, len, idx.value);
  }

  /** An index that fits neither `usize` nor `isize` is rejected. */
  lemma UnrepresentableIndex(t: Target, idx: Index, len: int)
    requires idx.InRange(t)
    requires t.IsUsize(len)
    requires idx.value < t.IsizeMin() || t.UsizeMax() < idx.value
    ensures CheckIndex(t, idx, len) == None
  {
  }

  /** The resolver agrees with the reference definition on every index
      value and every length, on every target. */
  lemma CheckIndexMatchesReference(t: Target, idx: Index, len: int)
    requires idx.InRange(t)
    requires t.IsUsize(len)
    ensures CheckIndex(t, idx, len).Some? <==> InWindow(t, idx.value, len)
    ensures CheckIndex(t, idx, len).Some? ==> CheckIndex(t, idx, len).value == Designated(idx.value, len)
  {
    var v := idx.value;
    if 0 <= v <= t.UsizeMax() {
      NonNegativeIndex(t, idx, len);
    } else if t.IsizeMin() <= v < 0 && 0 <= len + v {
      NegativeIndexInRange(t, idx, len);
    } else if t.IsizeMin() <= v < 0 {
      NegativeIndexOutOfRange(t, idx, len);
    } else {
      UnrepresentableIndex(t, idx, len);
    }
  }

  /** Cross-width consistency: the result depends only on the value of the
      index, not on its integer type. */
  lemma CrossWidth(t: Target, a: Index, b: Index, len: int)
    requires a.InRange(t) && b.InRange(t)
    requires t.IsUsize(len) && a.value == b.value
    ensures CheckIndex(t, a, len) == CheckIndex(t, b, len)
  {
    CheckIndexMatchesReference(t, a, len);
    CheckIndexMatchesReference(t, b, len);
  }

  /** For an index of an unsigned type the signed branch never yields an
      offset: the index resolves to itself when below `len` and is
      rejected otherwise (for `u128`, also when it exceeds `usize::MAX`). */
  lemma UnsignedIndex(t: Target, idx: Index, len: int)
    requires idx.InRange(t)
    requires t.IsUsize(len) && !idx.ty.IsSigned()
    ensures CheckIndex(t, idx, len) == if idx.value < len then Some(idx.value) else None
  {
    CheckIndexMatchesReference(t, idx, len);
  }

  /** Every offset of the slice is designated by exactly its own value and,
      when that fits in `isize`, by the value `len` places before it. */
  lemma Preimage(t: Target, idx: Index, len: int, r: int)
    requires idx.InRange(t)
    requires t.IsUsize(len) && 0 <= r < len
    ensures CheckIndex(t, idx, len) == Some(r) <==>
      (idx.value == r || (idx.value == r - len && t.IsizeMin() <= r - len))
  {
    CheckIndexMatchesReference(t, idx, len);
  }

  /** Resolving an offset the resolver produced, passed back as a `usize`,
      gives the same offset: resolution is idempotent. */
  lemma ResolveIdempotent(t: Target, idx: Index, len: int)
    requires idx.InRange(t)
    requires t.IsUsize(len) && CheckIndex(t, idx, len).Some?
    ensures CheckIndex(t, Index(USize, CheckIndex(t, idx, len).value), len) == CheckIndex(t, idx, len)
  {
    NonNegativeIndex(t, Index(USize, CheckIndex(t, idx, len).value), len);
  }

  /** For every slice whose length is at most `isize::MAX + 1` (which covers
      every slice of non-zero-sized elements), the resolver follows the
      Python convention exactly: `i` designates an element iff
      `-len <= i < len`, namely `i` or `len + i`. */
  lemma PythonIndexing(t: Target, idx: Index, len: int)
    requires idx.InRange(t)
    requires t.IsUsize(len) && len <= t.IsizeMax() + 1
    ensures CheckIndex(t, idx, len).Some? <==> 0 <= len + idx.value && idx.value < len
    ensures CheckIndex(t, idx, len).Some? ==>
      CheckIndex(t, idx, len).value == if idx.value >= 0 then idx.value else len + idx.value
  {
    CheckIndexMatchesReference(t, idx, len);
  }

  /** On a slice of maximal length (zero-sized elements, `len = usize::MAX`)
      nothing fails spuriously: every value from `isize::MIN` up to
      `usize::MAX - 1` resolves, a negative one to `len + i`. */
  lemma MaximalLength(t: Target, idx: Index)
    requires idx.InRange(t)
    requires t.IsizeMin() <= idx.value < t.UsizeMax()
    ensures CheckIndex(t, idx, t.UsizeMax()).Some?
    ensures CheckIndex(t, idx, t.UsizeMax()).value ==
      if idx.value >= 0 then idx.value else t.UsizeMax() + idx.value
  {
    CheckIndexMatchesReference(t, idx, t.UsizeMax());
  }

  /** The three indices exercised on a maximal-length slice of a 64-bit
      target: `-1`, `usize::MAX - 1` and `isize::MIN`, the last resolving
      to `usize::MAX + isize::MIN`, which is `isize::MAX`. */
  lemma MaximalLengthCases()
    ensures TARGET_64.UsizeMax() == 0xFFFF_FFFF_FFFF_FFFF
    ensures CheckIndex(TARGET_64, Index(I32, -1), 0xFFFF_FFFF_FFFF_FFFF) == Some(0xFFFF_FFFF_FFFF_FFFE)
    ensures CheckIndex(TARGET_64, Index(USize, 0xFFFF_FFFF_FFFF_FFFE), 0xFFFF_FFFF_FFFF_FFFF)
      == Some(0xFFFF_FFFF_FFFF_FFFE)
    ensures CheckIndex(TARGET_64, Index(ISize, -0x8000_0000_0000_0000), 0xFFFF_FFFF_FFFF_FFFF)
      == Some(0x7FFF_FFFF_FFFF_FFFF)
  {
    Target64Constants();
    MaximalLength(TARGET_64, Index(I32, -1));
    MaximalLength(TARGET_64, Index(USize, 0xFFFF_FFFF_FFFF_FFFE));
    MaximalLength(TARGET_64, Index(ISize, -0x8000_0000_0000_0000));
  }

  /** Where the resolver departs from the Python convention: on a slice of
      maximal length, an index just below `isize::MIN` (an `i128` on a
      64-bit target) counts fewer than `len` elements back, yet it is
      rejected because it fits in neither native width. */
  lemma BelowIsizeMinOnMaximalLength()
    ensures 0 <= TARGET_64.UsizeMax() + (-0x8000_0000_0000_0001) < TARGET_64.UsizeMax()
    ensures CheckIndex(TARGET_64, Index(I128, -0x8000_0000_0000_0001), TARGET_64.UsizeMax()) == None
  {
    Target64Constants();
    UnrepresentableIndex(TARGET_64, Index(I128, -0x8000_0000_0000_0001), TARGET_64.UsizeMax());
  }
}

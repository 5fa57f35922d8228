/** The scenarios of the crate's documentation and tests, on a 64-bit
    target. An integer literal without a suffix is an `i32` in Rust. */
module Scenarios {
  import opened Integers
  import opened Resolver
  import opened Accessors

  /** `[8, 2, 1, 0]`: `at(-1)` is 0 and `ref_at(2)` points at 1. */
  lemma CrateExampleReads(a: array<int>)
    requires a[..] == [8, 2, 1, 0]
    ensures At(TARGET_64, a[..], Index(I32, -1)) == Ok(0)
    ensures RefAt(TARGET_64, a, Index(I32, 2)) == Ok(Place(a, 2)) && a[2] == 1
  {
    Target64Constants();
  }

  /** `[8, 2, 1, 0]`: `mut_at(-3)` points at 2; storing through it changes
      only that element. */
  method CrateExampleWrite() returns (r: Access<int>, after: seq<int>)
    ensures r == Ok(2) && after == [8, 7, 1, 0]
  {
    Target64Constants();
    var a := new int[] [8, 2, 1, 0];
    r := MutAt(TARGET_64, a, Index(I32, -3), 7);
    after := a[..];
  }

  /** `[1, 2, 3]` with indices of two widths: `at(0u8)` is 1 and
      `ref_at(1i128)` points at 2. */
  lemma PositiveReads(a: array<int>)
    requires a[..] == [1, 2, 3]
    ensures At(TARGET_64, a[..], Index(U8, 0)) == Ok(1)
    ensures RefAt(TARGET_64, a, Index(I128, 1)) == Ok(Place(a, 1)) && a[1] == 2
  {
    Target64Constants();
  }

  /** The documentation of `at` on `[1, 2, 3]`: `at(2)` is 3, `at(-2)` is 2. */
  lemma AtDocExample()
    ensures At(TARGET_64, [1, 2, 3], Index(I32, 2)) == Ok(3)
    ensures At(TARGET_64, [1, 2, 3], Index(I32, -2)) == Ok(2)
  {
    Target64Constants();
  }

  /** The documentation of `ref_at` on `[1, 2, 3]`: `ref_at(2)` points at 3
      and `ref_at(-2)` at 2. */
  lemma RefAtDocExample(a: array<int>)
    requires a[..] == [1, 2, 3]
    ensures RefAt(TARGET_64, a, Index(I32, 2)) == Ok(Place(a, 2)) && a[2] == 3
    ensures RefAt(TARGET_64, a, Index(I32, -2)) == Ok(Place(a, 1)) && a[1] == 2
  {
    Target64Constants();
  }

  /** The documentation of `mut_at` on `[1, 2, 3]`: `mut_at(2)` points at 3
      and `mut_at(-2)` at 2 (each store puts back the value it found). */
  method MutAtDocExample() returns (r: Access<int>, q: Access<int>)
    ensures r == Ok(3) && q == Ok(2)
  {
    Target64Constants();
    var a := new int[] [1, 2, 3];
    r := MutAt(TARGET_64, a, Index(I32, 2), 3);
    q := MutAt(TARGET_64, a, Index(I32, -2), 2);
  }

  /** `[4, 5, 6]` with negative indices: `at(-1i8)` is 6 and
      `ref_at(-2i128)` points at 5. */
  lemma NegativeReads(a: array<int>)
    requires a[..] == [4, 5, 6]
    ensures At(TARGET_64, a[..], Index(I8, -1)) == Ok(6)
    ensures RefAt(TARGET_64, a, Index(I128, -2)) == Ok(Place(a, 1)) && a[1] == 5
  {
    Target64Constants();
  }

  /** `mut_at(2isize)` on `[1, 2, 3]` points at 3 and `mut_at(-3isize)` on
      `[4, 5, 6]` points at 4. */
  method MutAtWidths() returns (r: Access<int>, q: Access<int>)
    ensures r == Ok(3) && q == Ok(4)
  {
    Target64Constants();
    var a := new int[] [1, 2, 3];
    r := MutAt(TARGET_64, a, Index(ISize, 2), 0);
    var b := new int[] [4, 5, 6];
    q := MutAt(TARGET_64, b, Index(ISize, -3), 0);
  }

  /** `["hi"].at(-2)` panics, reporting length 1 and index -2. */
  lemma OutOfBoundsPanic()
    ensures At(TARGET_64, ["hi"], Index(I32, -2)) == OutOfBounds(1, Index(I32, -2))
  {
    Target64Constants();
  }

  /** A slice of `usize::MAX` zero-sized elements accepts `-1`,
      `usize::MAX - 1` and `isize::MIN`. */
  lemma ZeroSizedGiant(s: seq<()>)
    requires |s| == 0xFFFF_FFFF_FFFF_FFFF
    ensures TARGET_64.IsUsize(|s|)
    ensures At(TARGET_64, s, Index(I32, -1)).Ok?
    ensures At(TARGET_64, s, Index(USize, 0xFFFF_FFFF_FFFF_FFFE)).Ok?
    ensures At(TARGET_64, s, Index(ISize, -0x8000_0000_0000_0000)).Ok?
  {
    Target64Constants();
  }
}

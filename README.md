# at: indexing slices by any integer, from either end

A Dafny model of the `at` crate (`src/lib.rs`). The crate adds three
accessors to slices, `at` (copy), `ref_at` (shared reference) and
`mut_at` (mutable reference). They accept an index of any built-in integer
type, and a negative index counts from the end (`v.at(-1)` is the last
element). All three go through one index resolver, `check_index`:

1. convert the index to `usize`; if that works, it is the candidate;
2. otherwise convert it to `isize`, and give up if that fails too;
3. otherwise the candidate is `len.wrapping_add_signed(signed)`;
4. accept the candidate only if it is below `len`.

The point of the design is that the wrapping addition in step 3 never
needs an overflow check of its own: when a negative index counts more
than `len` elements back, the wrapped sum lands in `[len, usize::MAX]`, and
the final comparison rejects it. This holds even when `len` exceeds
`isize::MAX`, which happens for slices of zero-sized elements.

Files:

- `wrappers.dfy`: `Option`, usable with `:-` the way Rust's `?` is.
- `integers.dfy`: the compilation target (its pointer width fixes the
  range of `usize` and `isize`), the twelve integer types, `TryInto<usize>`,
  `TryInto<isize>`, `as usize`, `wrapping_add` and `wrapping_add_signed`.
- `resolver.dfy`: `check_index`, a reference definition of which index
  designates which element, and the proof that they agree.
- `accessors.dfy`: `at`, `ref_at`, `mut_at` with the `panic_bounds_check`
  failure as an outcome, and the unchecked-mode variants.
- `examples.dfy`: the crate's documentation examples and tests.

Modelling choices:

- The pointer width is a parameter, `Target(pointerWidth)`, with any width
  of at least 16 bits. Rust targets have 16, 32 or 64. All the lemmas hold
  on every target. The concrete scenarios use `TARGET_64`.
- An index is `Index(ty, value)`: its integer type and its mathematical
  value, which lies in that type's range (`Index.InRange`). The conversions
  depend only on the value, as Rust's integer `TryFrom` does.
- `wrapping_add_signed` is modelled as core defines it,
  `self.wrapping_add(rhs as usize)`. `as usize` and `wrapping_add` are
  each specified as "the one `usize` value congruent modulo 2^width".
- A slice of `T: Copy` read by value is a `seq<T>`. A slice that is
  referenced or written is an `array<T>`. A reference to an element is a
  `Place(slice, offset)`.
- Checked mode: a failed resolution is the outcome `OutOfBounds(len, idx)`.
  It carries the slice length and the index as the caller gave it, which
  are the two values the panic message prints.
- Unchecked mode (the `unsafe-unchecked` feature): the `...Unchecked`
  members require that the index designates an element.
- `mut_at` hands out a mutable reference. `MutAt` models taking that
  reference and storing one value through it. It returns the element as
  it was and replaces it.

Where the crate's documentation and its code differ: the documentation
promises Pythonesque negative indices (src/lib.rs:10), under which every
`i` with `-len <= i <= -1` designates element `len + i`. The code also
requires `i` to fit in `isize`. The two differ only when
`len > isize::MAX + 1` (a zero-sized element type) and the index is of
a signed type wider than `isize` (on a 64-bit target, an `i128`) and
below `isize::MIN`. The code rejects that index. The model follows
the code. `Resolver.BelowIsizeMinOnMaximalLength` shows such an index.
`Resolver.PythonIndexing` proves that for every length up to
`isize::MAX + 1` the two conventions coincide.

## Model

| member | source | states |
|---|---|---|
| `Integers.ConversionsByType` | src/lib.rs:44-47 | on every target, `u8`, `u16` and `usize` indices always convert to `usize` and `i8`, `i16`, `u8` and `isize` indices to `isize` (the infallible `From` impls); an unsigned index fails the `usize` conversion only as a `u32`, `u64` or `u128` above `usize::MAX`; a successful conversion keeps the value |
| `Integers.AsUnsigned` | src/lib.rs:56 | `s as usize` is a `usize` congruent to `s` modulo 2^width |
| `Integers.WrappingAdd` | src/lib.rs:56 | the wrapping sum is a `usize` congruent to the true sum modulo 2^width |
| `Integers.WrappingAddSigned` | src/lib.rs:56 | `len.wrapping_add_signed(signed)` is a `usize` congruent to `len + signed` modulo 2^width; its exact value is given by `Integers.WrappingAddSignedIsModular` |
| `Integers.TwosComplement` | src/lib.rs:56 | a negative `isize` cast to `usize` is itself plus 2^width; a non-negative one is unchanged |
| `Integers.WrappingAddOverflow` | src/lib.rs:56 | the wrapping sum is the true sum, less 2^width exactly when the true sum exceeds `usize::MAX` |
| `Integers.WrappingAddSignedIsModular` | src/lib.rs:56 | `wrapping_add_signed` is the sum reduced modulo 2^width, and is the exact sum whenever that fits in `usize` |
| `Resolver.Candidate` | src/lib.rs:44-57 | the resolver gives up before the bounds check exactly when the index fits in neither `usize` nor `isize`; a candidate is always a `usize` |
| `Resolver.CheckIndex` | src/lib.rs:59 | a resolved offset is always inside the slice, `0 <= r < len` |
| `Resolver.NonNegativeIndex` | src/lib.rs:44-45 | a non-negative index that fits in `usize` resolves to itself if below `len`, and to nothing otherwise |
| `Resolver.WrappedNegative` | src/lib.rs:48-56 | adding a negative `isize` to `len` with wrap-around gives the exact sum when that is non-negative, and otherwise a value in `[len + isize::MAX + 1, usize::MAX]`, hence at least `len`, for every `len` including those above `isize::MAX` |
| `Resolver.NegativeIndexInRange` | src/lib.rs:47-59 | a negative index with `-len <= i` (and fitting in `isize`) resolves to `len + i` |
| `Resolver.NegativeIndexOutOfRange` | src/lib.rs:48-59 | a negative `isize` index with `i < -len` yields a wrapped candidate at or above `len`, so it resolves to nothing |
| `Resolver.UnrepresentableIndex` | src/lib.rs:47 | an index that fits in neither `usize` nor `isize` resolves to nothing |
| `Resolver.CheckIndexMatchesReference` | src/lib.rs:43-60 | for every index, length and target, the resolver succeeds exactly on the reference window and then yields the designated element: `i` itself or `len + i` |
| `Resolver.CrossWidth` | src/lib.rs:44-47 | two indices with the same value resolve identically, whatever their integer types |
| `Resolver.UnsignedIndex` | src/lib.rs:44-45 | an index of an unsigned type resolves to itself when below `len` and to nothing otherwise, including a `u128` above `usize::MAX` |
| `Resolver.Preimage` | src/lib.rs:43-60 | offset `r` is produced by exactly the index `r` and, when it fits in `isize`, the index `r - len` |
| `Resolver.ResolveIdempotent` | src/lib.rs:44-45 | re-resolving a resolved offset given as a `usize` gives the same offset |
| `Resolver.PythonIndexing` | src/lib.rs:10 | for every length up to `isize::MAX + 1`, an index designates an element iff `-len <= i < len`, namely `i` or `len + i` |
| `Resolver.MaximalLength` | src/lib.rs:50-52 | on a slice of length `usize::MAX` every value from `isize::MIN` to `usize::MAX - 1` resolves, without spurious failure |
| `Resolver.MaximalLengthCases` | src/lib.rs:187-192 | on a 64-bit target with `len = usize::MAX`: `-1` and `usize::MAX - 1` resolve to `usize::MAX - 1`, and `isize::MIN` resolves to `isize::MAX` |
| `Resolver.BelowIsizeMinOnMaximalLength` | src/lib.rs:47 | on a 64-bit target with `len = usize::MAX`, the `i128` index `isize::MIN - 1` counts fewer than `len` elements back but is rejected |
| `Accessors.At` | src/lib.rs:82-97 | `at` succeeds exactly when the index designates an element and returns a copy of it; otherwise it fails with the length and the original index, the report of `panic_bounds_check` (src/lib.rs:64-66) |
| `Accessors.RefAt` | src/lib.rs:110-124 | `ref_at` succeeds exactly when the index designates an element and returns a reference into the same slice at that element's offset; otherwise it fails with the length and the original index, as `panic_bounds_check` (src/lib.rs:64-66) reports them |
| `Accessors.MutAt` | src/lib.rs:137-151 | `mut_at` succeeds exactly when the index designates an element; the element is returned as it was, it alone is replaced and the length is unchanged; on failure the slice is untouched and the failure carries the length and the original index, as `panic_bounds_check` (src/lib.rs:64-66) reports them |
| `Accessors.AtUnchecked` | src/lib.rs:90-93 | in unchecked mode, for an index that resolves, `at` returns the designated element |
| `Accessors.RefAtUnchecked` | src/lib.rs:117-120 | in unchecked mode, for an index that resolves, `ref_at` points at the designated element of the same slice |
| `Accessors.MutAtUnchecked` | src/lib.rs:144-147 | in unchecked mode, for an index that resolves, `mut_at` returns and replaces the designated element and nothing else |
| `Accessors.AccessorsFollowResolver` | src/lib.rs:90-95 | `at` and `ref_at` use exactly the offset `check_index` yields, and fail with `(len, idx)` exactly when it yields nothing |
| `Accessors.RefAtDerefIsAt` | src/lib.rs:110-124 | reading through the reference `ref_at` returns gives the value `at` returns, and they fail on the same indices with the same report |
| `Accessors.RefAtStable` | src/lib.rs:117-118 | the same index value gives the same storage location on every call and for every integer type |
| `Accessors.UncheckedAgreesWithChecked` | src/lib.rs:90-95 | on an index that resolves, unchecked `at` and `ref_at` return what checked `at` and `ref_at` return; `MutAt` and `MutAtUnchecked` agree on such an index because their success clauses state the same returned element and the same new array |
| `Scenarios.CrateExampleReads` | src/lib.rs:25-27 | on `[8, 2, 1, 0]`, `at(-1)` is 0 and `ref_at(2)` points at the element 1 |
| `Scenarios.CrateExampleWrite` | src/lib.rs:28 | on `[8, 2, 1, 0]`, `mut_at(-3)` targets the element 2, and a store through it changes only that element |
| `Scenarios.PositiveReads` | src/lib.rs:165-167 | on `[1, 2, 3]`, `at(0u8)` is 1 and `ref_at(1i128)` points at 2 |
| `Scenarios.AtDocExample` | src/lib.rs:76-79 | on `[1, 2, 3]`, `at(2)` is 3 and `at(-2)` is 2 |
| `Scenarios.RefAtDocExample` | src/lib.rs:103-107 | on `[1, 2, 3]`, `ref_at(2)` points at 3 and `ref_at(-2)` at 2 |
| `Scenarios.MutAtDocExample` | src/lib.rs:130-134 | on `[1, 2, 3]`, `mut_at(2)` targets 3 and `mut_at(-2)` targets 2 |
| `Scenarios.NegativeReads` | src/lib.rs:173-175 | on `[4, 5, 6]`, `at(-1i8)` is 6 and `ref_at(-2i128)` points at 5 |
| `Scenarios.MutAtWidths` | src/lib.rs:165-176 | `mut_at(2isize)` on `[1, 2, 3]` targets 3, and `mut_at(-3isize)` on `[4, 5, 6]` targets 4 |
| `Scenarios.OutOfBoundsPanic` | src/lib.rs:179-184 | `["hi"].at(-2)` fails, reporting length 1 and index -2 |
| `Scenarios.ZeroSizedGiant` | src/lib.rs:186-192 | a slice of `usize::MAX` zero-sized elements accepts `-1`, `usize::MAX - 1` and `isize::MIN` |

## Left out

- The benchmark harness `benches/check_regressions.rs`: it only times calls and has no logic.
- The claim of zero overhead and the `#[inline(always)]`/`#[inline(never)]` attributes: they concern generated code, which the model does not describe.
- The text of the panic message: the failure is the outcome `OutOfBounds(len, idx)` with the two values the message prints. The `Debug` rendering of them is not modelled.
- The undefined behaviour of `unreachable_unchecked`: unchecked mode is only the precondition that the index resolves.
- The sealed `ToIndex` trait alias, the blanket `impl<T> At for T` and the `AsRef`/`AsMut` dispatch: the accessors take the slice directly, and the index as value plus integer type.
- Borrow lifetimes and exclusivity: a reference is a `Place(slice, offset)`. The `&mut` reference that `mut_at` returns is modelled by one store through it. Reads and writes through it later in its lifetime are not modelled.
- `#![no_std]` and the lint attributes: they have no behaviour.
- Indices of type `bool`: the `ToIndex` bound (src/lib.rs:35-36) also admits `bool`, which converts to 0 or 1 but prints as `true`/`false` in the panic message. The model covers only the twelve integer types.
- The `Copy` bound of `at`: every Dafny value can be copied.

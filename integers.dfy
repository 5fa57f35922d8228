/** The primitive integer types a caller may index with, and the
    conversions and the wrapping addition of Rust's core library that the
    index resolver relies on. The width of `usize` and `isize` is that of
    the compilation target, so it is a parameter here. */
module Integers {
  import opened Wrappers

  /** 2 to the power `n`. */
  function Pow2(n: nat): (r: nat)
    ensures 0 < r
  {
    if n == 0 then 1 else 2 * Pow2(n - 1)
  }

  lemma {:induction false} Pow2Add(a: nat, b: nat)
    ensures Pow2(a + b) == Pow2(a) * Pow2(b)
  {
    if a > 0 {
      Pow2Add(a - 1, b);
      assert Pow2(a + b) == 2 * Pow2(a - 1 + b);
    }
  }

  lemma Pow2Of64()
    ensures Pow2(64) == 0x1_0000_0000_0000_0000
  {
    assert Pow2(2) == 4;
    Pow2Add(2, 2);
    Pow2Add(4, 4);
    Pow2Add(8, 8);
    Pow2Add(16, 16);
    Pow2Add(32, 32);
  }

  /** The pointer width of a Rust target: 16, 32 or 64 bits on the targets
      Rust supports; the model admits any width of at least 16 bits. */
  type PointerWidth = b: nat | 16 <= b witness 64

  /** A compilation target, which fixes the range of `usize` and `isize`. */
  datatype Target = Target(pointerWidth: PointerWidth) {

    /** 2^pointerWidth: the modulus of `usize` arithmetic. */
    function Modulus(): nat {
      Pow2(pointerWidth)
    }

    /** `usize::MAX` */
    function UsizeMax(): int {
      Modulus() - 1
    }

    /** `isize::MIN` */
    function IsizeMin(): int {
      -(Pow2(pointerWidth - 1) as int)
    }

    /** `isize::MAX` */
    function IsizeMax(): int {
      Pow2(pointerWidth - 1) - 1
    }

    predicate IsUsize(x: int) {
      0 <= x <= UsizeMax()
    }

    predicate IsIsize(x: int) {
      IsizeMin() <= x <= IsizeMax()
    }
  }

  /** The 64-bit targets (x86_64, aarch64, ...). */
  const TARGET_64: Target := Target(64)

  /** The constants of a 64-bit target. */
  lemma Target64Constants()
    ensures TARGET_64.Modulus() == 0x1_0000_0000_0000_0000
    ensures TARGET_64.UsizeMax() == 0xFFFF_FFFF_FFFF_FFFF
    ensures TARGET_64.IsizeMin() == -0x8000_0000_0000_0000
    ensures TARGET_64.IsizeMax() == 0x7FFF_FFFF_FFFF_FFFF
  {
    Pow2Of64();
  }

  /** Every built-in integer type of Rust. */
  datatype IntType =
    | U8 | U16 | U32 | U64 | U128 | USize
    | I8 | I16 | I32 | I64 | I128 | ISize
  {
    predicate IsSigned() {
      I8? || I16? || I32? || I64? || I128? || ISize?
    }

    /** The smallest value of the type on target `t`. */
    function Min(t: Target): int {
      match this
      case U8 | U16 | U32 | U64 | U128 | USize => 0
      case I8 => -0x80
      case I16 => -0x8000
      case I32 => -0x8000_0000
      case I64 => -0x8000_0000_0000_0000
      case I128 => -0x8000_0000_0000_0000_0000_0000_0000_0000
      case ISize => t.IsizeMin()
    }

    /** The largest value of the type on target `t`. */
    function Max(t: Target): int {
      match this
      case U8 => 0xFF
      case U16 => 0xFFFF
      case U32 => 0xFFFF_FFFF
      case U64 => 0xFFFF_FFFF_FFFF_FFFF
      case U128 => 0xFFFF_FFFF_FFFF_FFFF_FFFF_FFFF_FFFF_FFFF
      case USize => t.UsizeMax()
      case I8 => 0x7F
      case I16 => 0x7FFF
      case I32 => 0x7FFF_FFFF
      case I64 => 0x7FFF_FFFF_FFFF_FFFF
      case I128 => 0x7FFF_FFFF_FFFF_FFFF_FFFF_FFFF_FFFF_FFFF
      case ISize => t.IsizeMax()
    }
  }

  /** An index as the caller passes it: a value together with its integer
      type (the type only matters for which values can occur, and for
      nothing the resolver computes). */
  datatype Index = Index(ty: IntType, value: int) {
    predicate InRange(t: Target) {
      ty.Min(t) <= value <= ty.Max(t)
    }
  }

  /** `TryInto<usize>`, Rust's integer `TryFrom`: keeps the value when it
      fits in `usize`. */
  function TryIntoUsize(t: Target, idx: Index): Option<int> {
    if 0 <= idx.value <= t.UsizeMax() then Some(idx.value) else None
  }

  /** `TryInto<isize>`, Rust's integer `TryFrom`: keeps the value when it
      fits in `isize`. */
  function TryIntoIsize(t: Target, idx: Index): Option<int> {
    if t.IsizeMin() <= idx.value <= t.IsizeMax() then Some(idx.value) else None
  }

  /** `Pow2` is monotone. */
  lemma {:induction false} Pow2Monotone(a: nat, b: nat)
    requires a <= b
    ensures Pow2(a) <= Pow2(b)
  {
    if a < b {
      Pow2Monotone(a, b - 1);
    }
  }

  /** What the integer types promise about the two conversions on every
      target: `u8`, `u16` and `usize` always convert to `usize`, and `i8`,
      `i16`, `u8` and `isize` always convert to `isize` (Rust's infallible
      `From` impls); an index of an unsigned type fails the `usize`
      conversion only when it is a `u32`, `u64` or `u128` above
      `usize::MAX`; and a conversion that succeeds keeps the value. */
  lemma ConversionsByType(t: Target, idx: Index)
    requires idx.InRange(t)
    ensures idx.ty in {U8, U16, USize} ==> TryIntoUsize(t, idx) == Some(idx.value)
    ensures idx.ty in {I8, I16, U8, ISize} ==> TryIntoIsize(t, idx) == Some(idx.value)
    ensures !idx.ty.IsSigned() && TryIntoUsize(t, idx).None? ==>
      idx.ty in {U32, U64, U128} && idx.value > t.UsizeMax()
    ensures TryIntoUsize(t, idx).Some? ==> TryIntoUsize(t, idx).value == idx.value
    ensures TryIntoIsize(t, idx).Some? ==> TryIntoIsize(t, idx).value == idx.value
  {
    // `usize` and `isize` have at least 16 bits on every target.
    Pow2Monotone(15, t.pointerWidth - 1);
    assert Pow2(15) == 0x8000;
  }

  /** `s as usize` for an `isize`: the same bits read as unsigned, that is
      the one `usize` value congruent to `s` modulo 2^width. */
  function AsUnsigned(t: Target, s: int): (r: int)
    requires t.IsIsize(s)
    ensures t.IsUsize(r) && (r - s) % t.Modulus() == 0
  {
    SmallMod(s, t.Modulus());
    OneModulusApart((s % t.Modulus()) - s, t.Modulus());
    s % t.Modulus()
  }

  /** `usize::wrapping_add`: the one `usize` value congruent to the sum
      modulo 2^width. */
  function WrappingAdd(t: Target, a: int, b: int): (r: int)
    requires t.IsUsize(a) && t.IsUsize(b)
    ensures t.IsUsize(r) && (r - (a + b)) % t.Modulus() == 0
  {
    SmallMod(a + b, t.Modulus());
    OneModulusApart(((a + b) % t.Modulus()) - (a + b), t.Modulus());
    (a + b) % t.Modulus()
  }

  /** `usize::wrapping_add_signed`, which core defines as
      `self.wrapping_add(rhs as usize)`. */
  function WrappingAddSigned(t: Target, a: int, s: int): (r: int)
    requires t.IsUsize(a) && t.IsIsize(s)
    ensures t.IsUsize(r) && (r - (a + s)) % t.Modulus() == 0
  {
    var u := AsUnsigned(t, s);
    TwosComplement(t, s);
    WrappingAddOverflow(t, a, u);
    OneModulusApart(WrappingAdd(t, a, u) - (a + s), t.Modulus());
    WrappingAdd(t, a, u)
  }

  /** Two's complement: a negative `isize` reads as itself plus 2^width. */
  lemma TwosComplement(t: Target, s: int)
    requires t.IsIsize(s)
    ensures AsUnsigned(t, s) == if s < 0 then s + t.Modulus() else s
  {
    SmallMod(s, t.Modulus());
  }

  /** Wrapping addition subtracts 2^width exactly when the sum overflows. */
  lemma WrappingAddOverflow(t: Target, a: int, b: int)
    requires t.IsUsize(a) && t.IsUsize(b)
    ensures WrappingAdd(t, a, b) == if a + b <= t.UsizeMax() then a + b else a + b - t.Modulus()
  {
    SmallMod(a + b, t.Modulus());
  }

  /** The wrapping signed addition is the mathematical sum reduced modulo
      2^width, and is the exact sum whenever that fits in `usize`. */
  lemma WrappingAddSignedIsModular(t: Target, a: int, s: int)
    requires t.IsUsize(a) && t.IsIsize(s)
    ensures WrappingAddSigned(t, a, s) == (a + s) % t.Modulus()
    ensures t.IsUsize(a + s) ==> WrappingAddSigned(t, a, s) == a + s
  {
    TwosComplement(t, s);
    WrappingAddOverflow(t, a, AsUnsigned(t, s));
    SmallMod(a + s, t.Modulus());
  }

  /** Reduction modulo `m` of a value within one modulus of `[0, m)`. */
  lemma SmallMod(x: int, m: int)
    requires 0 < m && -m <= x < 2 * m
    ensures x % m == if x < 0 then x + m else if x < m then x else x - m
  {
  }

  /** Values that differ by at most one modulus in either direction. */
  lemma OneModulusApart(d: int, m: int)
    requires 0 < m && (d == 0 || d == m || d == -m)
    ensures d % m == 0
  {
  }
}

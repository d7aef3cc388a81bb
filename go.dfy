/** The parts of Go's runtime semantics the model depends on: fixed-width
    integers with wrap-around on overflow, time.Duration, and error values. */
module Go {

  const TWO_32: int := 0x1_0000_0000
  const TWO_63: int := 0x8000_0000_0000_0000
  const TWO_64: int := 0x1_0000_0000_0000_0000

  newtype uint16 = x: int | 0 <= x < 0x1_0000
  newtype uint32 = x: int | 0 <= x < 0x1_0000_0000
  newtype uintptr = x: int | 0 <= x < 0x1_0000_0000_0000_0000
  newtype int64 = x: int | -0x8000_0000_0000_0000 <= x < 0x8000_0000_0000_0000

  /** time.Duration: a signed 64-bit count of nanoseconds. */
  type Duration = int64

  const Millisecond: Duration := 1_000_000

  /** A Go `error`: a syscall.Errno, or an error made from a message by fmt.Errorf. */
  datatype Error = Errno(code: uintptr) | ErrorString(message: string)

  /** The int64 that an exact integer wraps to in two's complement: add or
      subtract 2^64 until the value is in range. */
  function Wrap64(x: int): int64
    decreases if x >= TWO_63 then x else if x < -TWO_63 then -x else 0
  {
    if x >= TWO_63 then Wrap64(x - TWO_64)
    else if x < -TWO_63 then Wrap64(x + TWO_64)
    else x as int64
  }

  /** The wrapped value is congruent to the exact one modulo 2^64. */
  lemma {:induction false} Wrap64Residue(x: int)
    ensures (Wrap64(x) as int - x) % TWO_64 == 0
    decreases if x >= TWO_63 then x else if x < -TWO_63 then -x else 0
  {
    if x >= TWO_63 {
      Wrap64Residue(x - TWO_64);
      ModuloSum(Wrap64(x) as int - (x - TWO_64), -TWO_64);
    } else if x < -TWO_63 {
      Wrap64Residue(x + TWO_64);
      ModuloSum(Wrap64(x) as int - (x + TWO_64), TWO_64);
    }
  }

  /** Go's `a + b` on int64. */
  function Add64(a: int64, b: int64): int64
  {
    Wrap64(a as int + b as int)
  }

  /** Go's `a * b` on int64. */
  function Mul64(a: int64, b: int64): int64
  {
    Wrap64(a as int * b as int)
  }

  /** Go's `a << 32` on int64: the bits shifted out of the top are lost. */
  function ShiftLeft32(a: int64): int64
  {
    Wrap64(a as int * TWO_32)
  }

  /** Wrapping leaves a value that already fits unchanged. */
  lemma Wrap64InRange(x: int)
    requires -TWO_63 <= x < TWO_63
    ensures Wrap64(x) as int == x
  {
  }

  /** Wrapping depends only on the residue modulo 2^64. */
  lemma Wrap64Congruent(x: int, y: int)
    requires (x - y) % TWO_64 == 0
    ensures Wrap64(x) == Wrap64(y)
  {
    var a, b := Wrap64(x) as int, Wrap64(y) as int;
    Wrap64Residue(x);
    Wrap64Residue(y);
    var i, j, k := (a - x) / TWO_64, (b - y) / TWO_64, (x - y) / TWO_64;
    assert a - x == i * TWO_64 && b - y == j * TWO_64 && x - y == k * TWO_64;
    assert a - b == (i + k - j) * TWO_64;
  }

  /** Multiples of 2^64 are closed under addition. */
  lemma ModuloSum(p: int, q: int)
    requires p % TWO_64 == 0 && q % TWO_64 == 0
    ensures (p + q) % TWO_64 == 0
  {
    var i, j := p / TWO_64, q / TWO_64;
    assert p == i * TWO_64 && q == j * TWO_64;
    assert p + q == (i + j) * TWO_64;
  }
}

/*
 * C integer arithmetic used across the library, written out on unbounded
 * integers: unsigned wrap-around, truncating signed division, two's-complement
 * reinterpretation and big-endian byte order (htons/htonl/ntohl).
 */
module CInt {

  const TWO_8: int := 0x100
  const TWO_16: int := 0x1_0000
  const TWO_32: int := 0x1_0000_0000
  const TWO_64: int := 0x1_0000_0000_0000_0000

  type byte = x: int | 0 <= x < 0x100
  type u16 = x: int | 0 <= x < 0x1_0000
  type u32 = x: int | 0 <= x < 0x1_0000_0000
  type u64 = x: int | 0 <= x < 0x1_0000_0000_0000_0000
  type i32 = x: int | -0x8000_0000 <= x < 0x8000_0000

  predicate IsU16(x: int) { 0 <= x < TWO_16 }
  predicate IsU32(x: int) { 0 <= x < TWO_32 }
  predicate IsU64(x: int) { 0 <= x < TWO_64 }

  /** Conversion to an unsigned 32-bit value (C modular conversion). */
  function U32(x: int): (r: u32)
    ensures IsU32(r) && (IsU32(x) ==> r == x)
  {
    x % TWO_32
  }

  /** Conversion to an unsigned 64-bit value (C modular conversion). */
  function U64(x: int): (r: u64)
    ensures IsU64(r) && (IsU64(x) ==> r == x)
  {
    x % TWO_64
  }

  /** Incrementing a wrapped counter wraps like incrementing the unwrapped value. */
  lemma U32Succ(a: int)
    ensures U32(U32(a) as int + 1) == U32(a + 1)
  {
    var q := a / TWO_32;
    var r := a % TWO_32;
    assert a == q * TWO_32 + r;
    if r + 1 < TWO_32 {
      assert a + 1 == q * TWO_32 + (r + 1);
    } else {
      assert a + 1 == (q + 1) * TWO_32;
    }
  }

  /** The signed 32-bit value with the same bit pattern as an unsigned one. */
  function I32(x: int): (r: int)
    requires IsU32(x)
    ensures -0x8000_0000 <= r < 0x8000_0000 && U32(r) == x
  {
    if x < 0x8000_0000 then x else x - TWO_32
  }

  /** C division of signed integers: the quotient is truncated toward zero. */
  function TruncDiv(a: int, b: int): (q: int)
    requires b != 0
    ensures a >= 0 && b > 0 ==> q == a / b
  {
    var q := Abs(a) / Abs(b);
    if (a >= 0) == (b > 0) then q else -q
  }

  function Abs(x: int): (r: int)
    ensures r >= 0 && (r == x || r == -x)
  {
    if x < 0 then -x else x
  }

  function Power2(n: nat): (r: int)
    ensures r >= 1
  {
    if n == 0 then 1 else 2 * Power2(n - 1)
  }

  /** A C pointer to memory outside the model: NULL, or an opaque address. */
  datatype Ptr = Null | Ptr(address: int)

  /** A C pointer to memory the model does see: NULL, or what it points to. */
  datatype Option<T> = None | Some(value: T)

  /** Big-endian (network order) bytes of a 16-bit value. */
  function BE16(x: int): (r: seq<byte>)
    requires IsU16(x)
    ensures |r| == 2 && FromBE(r) == x
  {
    var r: seq<byte> := [x / 0x100, x % 0x100];
    assert r[..1][..0] == [] && r[..1] == [r[0]];
    assert FromBE(r[..1]) == r[0];
    assert FromBE(r) == r[0] as int * 0x100 + r[1] as int;
    r
  }

  /** Big-endian (network order) bytes of a 32-bit value. */
  function BE32(x: int): (r: seq<byte>)
    requires IsU32(x)
    ensures |r| == 4 && FromBE(r) == x
  {
    var a := x / 0x100;
    var b := a / 0x100;
    var c := b / 0x100;
    var r: seq<byte> := [c, b % 0x100, a % 0x100, x % 0x100];
    assert r[..3][..2][..1][..0] == [] && r[..3][..2][..1] == [r[0]];
    assert r[..3][..2] == [r[0], r[1]] && r[..3] == [r[0], r[1], r[2]];
    assert FromBE(r[..3][..2][..1]) == c;
    assert FromBE(r[..3][..2]) == b;
    assert FromBE(r[..3]) == a;
    r
  }

  /** The unsigned value of big-endian bytes. */
  function FromBE(s: seq<byte>): (r: int)
    ensures r >= 0
  {
    if s == [] then 0 else FromBE(s[..|s| - 1]) * 0x100 + s[|s| - 1]
  }

  // Division and multiplication facts the solver does not find alone.

  /** The quotient times the divisor is within one divisor of the dividend. */
  lemma DivBounds(x: int, d: int)
    requires d > 0
    ensures (x / d) * d <= x < (x / d) * d + d
  {
  }

  /** Division by a positive number keeps order. */
  lemma DivMonotonic(x: int, y: int, d: int)
    requires 0 <= x <= y && d > 0
    ensures x / d <= y / d
  {
    var qx, qy := x / d, y / d;
    if qx > qy {
      MulLe(qy + 1, qx, d);
      assert false;
    }
  }

  /** Multiplication by a positive number keeps order. */
  lemma MulLe(a: int, b: int, d: int)
    requires a <= b && d > 0
    ensures a * d <= b * d
  {
    assert b * d - a * d == (b - a) * d;
  }

  lemma MulAtLeast(a: int, d: int)
    requires a >= 1 && d > 0
    ensures a * d >= d
  {
  }

  /** Quotient and remainder are unique. */
  lemma DivModUnique(x: int, q: int, r: int, d: int)
    requires d > 0 && 0 <= r < d && x == q * d + r
    ensures x / d == q && x % d == r
  {
    var q', r' := x / d, x % d;
    assert (q - q') * d == r' - r;
    if q > q' {
      MulAtLeast(q - q', d);
    } else if q < q' {
      MulAtLeast(q' - q, d);
    }
  }
}

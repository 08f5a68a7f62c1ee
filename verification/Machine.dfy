/** Go's fixed-width integers, as bounded mathematical integers.  Every wrap-around or cast that
    the program can perform is one of the functions below; plain `+`, `-` and `*` never wrap. */
module Machine {

  const TWO_32: int := 0x1_0000_0000
  const TWO_63: int := 0x8000_0000_0000_0000
  const TWO_64: int := 0x1_0000_0000_0000_0000

  /** The first value that no longer fits the 256 bits of `cosmossdk.io/math.Int`. */
  const TWO_256: int := 0x1_0000000000000000_0000000000000000_0000000000000000_0000000000000000

  const MAX_UINT64: uint64 := 0xFFFF_FFFF_FFFF_FFFF

  type byte = x: int | 0 <= x < 0x100
  type uint32 = x: int | 0 <= x < 0x1_0000_0000
  type uint64 = x: int | 0 <= x < 0x1_0000_0000_0000_0000
  type int64 = x: int | -0x8000_0000_0000_0000 <= x < 0x8000_0000_0000_0000

  /** int64 subtraction with two's-complement wrap-around. */
  function SubInt64(a: int64, b: int64): int64 {
    (a - b + TWO_63) % TWO_64 - TWO_63
  }

  /** The conversion uint64(x) of an int64. */
  function CastUint64(x: int64): uint64 {
    x % TWO_64
  }

  function MulUint64(a: uint64, b: uint64): uint64 {
    (a * b) % TWO_64
  }

  function AddUint32(a: uint32, b: uint32): uint32 {
    (a + b) % TWO_32
  }

  /** Wrapping early or late makes no difference. */
  lemma WrapAdd(x: nat, y: nat)
    ensures (x % TWO_32 + y) % TWO_32 == (x + y) % TWO_32
  {
    var q := x / TWO_32;
    assert x + y == q * TWO_32 + (x % TWO_32 + y);
  }

  function Min(a: int, b: int): int {
    if a <= b then a else b
  }

  function Max(a: int, b: int): int {
    if a <= b then b else a
  }

  /** Two heights that are far apart (a negative stored height, for instance) make the int64
      subtraction wrap; the cast to uint64 undoes the wrap exactly. */
  lemma WrappedDifference(current: int64, last: int64)
    requires last < current
    ensures CastUint64(SubInt64(current, last)) == current - last
    ensures current - last >= TWO_63 ==> SubInt64(current, last) < 0
  {
    var d := current - last;
    if d < TWO_63 {
      assert (d + TWO_63) % TWO_64 == d + TWO_63;
    } else {
      assert (d + TWO_63) % TWO_64 == d + TWO_63 - TWO_64;
    }
  }
}

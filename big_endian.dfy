/**
 * The byte loop of `getBinary` in tmp/golang/main.go: the signed number of
 * microseconds between an instant and the PostgreSQL epoch
 * (2000-01-01 00:00:00 UTC, `PGEpochJDate`) is written into a fresh 8-byte
 * slice, most significant byte first, by shifting the int64 right and
 * truncating to a byte.  The microsecond offset is the input; how Go's
 * `time` package computes it is not part of this model.
 */
module PgEpoch {

  /** Go's `int64`. */
  type Int64 = x: int | -0x8000_0000_0000_0000 <= x < 0x8000_0000_0000_0000

  /** Go's `byte`. */
  type Byte = b: int | 0 <= b < 256

  function Pow2(n: nat): (p: nat)
    ensures p > 0
  {
    if n == 0 then 1 else 2 * Pow2(n - 1)
  }

  /** Go's `x >> s` on a signed integer: an arithmetic shift, which rounds toward minus infinity. */
  function ShiftRight(x: int, s: nat): int
  {
    x / Pow2(s)
  }

  /** Go's conversion `byte(x)`: keep the low 8 bits. */
  function ToByte(x: int): Byte
  {
    x % 256
  }

  /** The slice `getBinary` builds: byte `i` is `byte(diff >> (8 * (7 - i)))`. */
  function BigEndian(diff: Int64): (bytes: seq<Byte>)
  {
    seq(8, i requires 0 <= i < 8 => ToByte(ShiftRight(diff, 8 * (7 - i))))
  }

  /** `binaryDiff := make([]byte, 8)` filled by the counted loop of `getBinary`. */
  method GetBinary(diff: Int64) returns (binaryDiff: seq<Byte>)
    ensures binaryDiff == BigEndian(diff)
  {
    var buf := new Byte[8];
    for i := 0 to 8
      invariant forall j :: 0 <= j < i ==> buf[j] == ToByte(ShiftRight(diff, 8 * (7 - j)))
    {
      buf[i] := ToByte(ShiftRight(diff, 8 * (7 - i)));
    }
    binaryDiff := buf[..];
  }

  // ------------------------------------------------------------ reading back

  /** The bytes read as an unsigned big-endian number. */
  function Unsigned(bytes: seq<Byte>): nat
  {
    if bytes == [] then 0 else Unsigned(bytes[..|bytes| - 1]) * 256 + bytes[|bytes| - 1]
  }

  /** Eight bytes read as a big-endian two's-complement int64. */
  function ToInt64(bytes: seq<Byte>): int
    requires |bytes| == 8
  {
    var u := Unsigned(bytes);
    if u >= 0x8000_0000_0000_0000 then u - 0x1_0000_0000_0000_0000 else u
  }

  // ------------------------------------------------------------- arithmetic

  lemma DivModUnique(x: int, d: int, q: int, r: int)
    requires d > 0 && 0 <= r < d && x == d * q + r
    ensures x / d == q && x % d == r
  {
    var q', r' := x / d, x % d;
    assert d * (q - q') == r' - r;
    if q > q' {
      MulAtLeast(d, q - q');
      assert false;
    } else if q < q' {
      MulAtLeast(d, q' - q);
      assert false;
    }
  }

  lemma MulAtLeast(d: int, k: int)
    requires d > 0 && k >= 1
    ensures d * k >= d
  {
  }

  lemma MulBelow(a: int, r: int, b: int)
    requires a > 0 && 0 <= r < b
    ensures 0 <= a * r <= a * (b - 1)
  {
  }

  lemma Regroup(a: int, b: int, q: int, r: int)
    ensures a * (b * q + r) == (a * b) * q + a * r
  {
    assert a * (b * q + r) == a * (b * q) + a * r;
    assert a * (b * q) == (a * b) * q;
  }

  /** Shifting by `a` then by `b` is shifting by `a * b`. */
  lemma DivDiv(x: int, a: int, b: int)
    requires a > 0 && b > 0
    ensures x / a / b == x / (a * b)
  {
    var q1, r1 := x / a, x % a;
    var q2, r2 := q1 / b, q1 % b;
    MulBelow(a, r2, b);
    assert x == a * q1 + r1;
    assert q1 == b * q2 + r2;
    Regroup(a, b, q2, r2);
    DivModUnique(x, a * b, q2, a * r2 + r1);
  }

  /** Appending the low byte below the high bytes reduces modulo one more byte. */
  lemma ModAppendByte(y: int, m: int)
    requires m > 0
    ensures ((y / 256) % m) * 256 + y % 256 == y % (256 * m)
  {
    var q, r := y / 256, y % 256;
    var k, rem := q / m, q % m;
    MulBelow(256, rem, m);
    assert y == 256 * q + r;
    assert q == m * k + rem;
    Regroup(256, m, k, rem);
    DivModUnique(y, 256 * m, k, 256 * rem + r);
  }

  lemma {:induction false} Pow2Add(a: nat, b: nat)
    ensures Pow2(a + b) == Pow2(a) * Pow2(b)
  {
    if b > 0 {
      Pow2Add(a, b - 1);
    }
  }

  lemma Pow2Byte(n: nat)
    ensures Pow2(n + 8) == 256 * Pow2(n)
  {
    Pow2Add(n, 8);
    assert Pow2(8) == 256;
  }

  // -------------------------------------------------------------- properties

  lemma Pow2Constants()
    ensures Pow2(56) == 0x100_0000_0000_0000
    ensures Pow2(64) == 0x1_0000_0000_0000_0000
  {
    assert Pow2(0) == 1;
    Pow2Byte(0); Pow2Byte(8); Pow2Byte(16); Pow2Byte(24);
    Pow2Byte(32); Pow2Byte(40); Pow2Byte(48); Pow2Byte(56);
  }

  /** Shifting right by `n + 8` bits is shifting by `n` bits and then by 8. */
  lemma ShiftStep(x: int, n: nat)
    ensures ShiftRight(x, n + 8) == ShiftRight(x, n) / 256
  {
    Pow2Byte(n);
    DivDiv(x, Pow2(n), 256);
  }

  lemma UnsignedSnoc(bytes: seq<Byte>, k: nat)
    requires 1 <= k <= |bytes|
    ensures Unsigned(bytes[..k]) == Unsigned(bytes[..k - 1]) * 256 + bytes[k - 1]
  {
    assert bytes[..k][..k - 1] == bytes[..k - 1];
  }

  lemma WidthStep(k: nat)
    requires k >= 1
    ensures Pow2(8 * k) == 256 * Pow2(8 * (k - 1))
  {
    Pow2Byte(8 * (k - 1));
  }

  /** The high `k` bytes of the encoding are `diff` shifted right by the remaining bytes, modulo 2^(8k). */
  lemma {:induction false} UnsignedPrefix(diff: Int64, k: nat)
    requires k <= 8
    ensures Unsigned(BigEndian(diff)[..k]) == ShiftRight(diff, 8 * (8 - k)) % Pow2(8 * k)
  {
    if k == 0 {
      assert BigEndian(diff)[..0] == [];
    } else {
      UnsignedPrefix(diff, k - 1);
      UnsignedPrefixStep(diff, k);
    }
  }

  /** One more byte of the encoding: the inductive step of `UnsignedPrefix`. */
  lemma UnsignedPrefixStep(diff: Int64, k: nat)
    requires 1 <= k <= 8
    requires Unsigned(BigEndian(diff)[..k - 1]) == ShiftRight(diff, 8 * (8 - (k - 1))) % Pow2(8 * (k - 1))
    ensures Unsigned(BigEndian(diff)[..k]) == ShiftRight(diff, 8 * (8 - k)) % Pow2(8 * k)
  {
    var bytes := BigEndian(diff);
    var n := 8 * (8 - k);
    var m := Pow2(8 * (k - 1));
    var y := ShiftRight(diff, n);
    var prev := Unsigned(bytes[..k - 1]);
    assert 8 * (8 - (k - 1)) == n + 8;
    ShiftStep(diff, n);
    assert prev == (y / 256) % m;
    UnsignedSnoc(bytes, k);
    assert bytes[k - 1] == y % 256;
    WidthStep(k);
    ModAppendByte(y, m);
    assert Unsigned(bytes[..k]) == prev * 256 + y % 256;
  }

  /** All eight bytes read as an unsigned number give `diff` modulo 2^64. */
  lemma UnsignedAll(diff: Int64)
    ensures Unsigned(BigEndian(diff)) == diff % 0x1_0000_0000_0000_0000
  {
    var bytes := BigEndian(diff);
    UnsignedPrefix(diff, 8);
    assert bytes[..8] == bytes;
    assert Pow2(0) == 1;
    assert ShiftRight(diff, 0) == diff;
    Pow2Constants();
  }

  /** Reading the eight bytes back as a big-endian int64 gives `diff`. */
  lemma RoundTrip(diff: Int64)
    ensures |BigEndian(diff)| == 8
    ensures ToInt64(BigEndian(diff)) == diff
  {
    var two64 := 0x1_0000_0000_0000_0000;
    UnsignedAll(diff);
    if diff >= 0 {
      DivModUnique(diff, two64, 0, diff);
    } else {
      DivModUnique(diff, two64, -1, diff + two64);
    }
  }

  /** Two offsets with the same bytes are equal. */
  lemma Injective(a: Int64, b: Int64)
    requires BigEndian(a) == BigEndian(b)
    ensures a == b
  {
    RoundTrip(a);
    RoundTrip(b);
  }

  /** The first byte carries the sign: it is 0x80 or more exactly for instants before the epoch. */
  lemma SignInFirstByte(diff: Int64)
    ensures BigEndian(diff)[0] >= 0x80 <==> diff < 0
  {
    Pow2Constants();
    var p := 0x100_0000_0000_0000;
    var q := diff / p;
    assert p * q <= diff < p * q + p;
    if diff < 0 {
      assert -128 <= q < 0;
      DivModUnique(q, 256, -1, q + 256);
    } else {
      assert 0 <= q < 128;
      DivModUnique(q, 256, 0, q);
    }
  }

  /** The epoch itself encodes as eight zero bytes. */
  lemma EpochIsZero()
    ensures |BigEndian(0)| == 8
    ensures forall i :: 0 <= i < 8 ==> BigEndian(0)[i] == 0
  {
    var bytes := BigEndian(0);
    forall i | 0 <= i < 8
      ensures bytes[i] == 0
    {
      DivModUnique(0, Pow2(8 * (7 - i)), 0, 0);
    }
  }
}

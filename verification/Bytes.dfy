/** Fixed-width integers as byte strings: little-endian for files, big-endian for the network. */
module Bytes {
  import opened Arithmetic

  type Byte = x: int | 0 <= x < 256

  function Pow256(k: nat): (n: nat)
    ensures n > 0
  {
    if k == 0 then 1 else 256 * Pow256(k - 1)
  }

  function LittleEndian(n: nat, k: nat): (s: seq<Byte>)
    ensures |s| == k
  {
    if k == 0 then [] else [n % 256] + LittleEndian(n / 256, k - 1)
  }

  function FromLittle(s: seq<Byte>): nat {
    if s == [] then 0 else s[0] + 256 * FromLittle(s[1..])
  }

  /** The low k bytes of n, read back. */
  lemma {:induction false} LittleRoundTrip(n: nat, k: nat)
    requires n < Pow256(k)
    ensures FromLittle(LittleEndian(n, k)) == n
  {
    if k > 0 {
      LittleRoundTrip(n / 256, k - 1);
      assert LittleEndian(n, k)[1..] == LittleEndian(n / 256, k - 1);
    }
  }

  /** Byte i of a file is the digit of 256^i: the lowest first. */
  lemma {:induction false} LittleEndianAt(n: nat, k: nat, i: nat)
    requires i < k
    ensures LittleEndian(n, k)[i] == n / Pow256(i) % 256
  {
    if i > 0 {
      LittleEndianAt(n / 256, k - 1, i - 1);
      ModStep(n, Pow256(i - 1));
    }
  }

  /** Two's complement of width k bytes. */
  function ToUnsigned(x: int, k: nat): (n: nat)
    requires InRange(x, k)
  {
    if x < 0 then x + Pow256(k) else x
  }

  function ToSigned(n: nat, k: nat): int {
    if 2 * n >= Pow256(k) then n - Pow256(k) else n
  }

  predicate InRange(x: int, k: nat) {
    0 <= 2 * x + Pow256(k) && 2 * x < Pow256(k)
  }

  /** The ranges of the source's signed integers. */
  predicate InInt16(x: int) {
    -0x8000 <= x < 0x8000
  }

  predicate InInt32(x: int) {
    -0x8000_0000 <= x < 0x8000_0000
  }

  predicate InInt64(x: int) {
    -0x8000_0000_0000_0000 <= x < 0x8000_0000_0000_0000
  }

  lemma Widths()
    ensures Pow256(2) == 0x1_0000 && Pow256(4) == 0x1_0000_0000 && Pow256(8) == 0x1_0000_0000_0000_0000
  {
    assert Pow256(2) == 256 * 256;
    assert Pow256(4) == 256 * 256 * Pow256(2);
    assert Pow256(6) == 256 * 256 * Pow256(4);
  }

  function EncodeInt(x: int, k: nat): (s: seq<Byte>)
    requires InRange(x, k)
    ensures |s| == k
  {
    LittleEndian(ToUnsigned(x, k), k)
  }

  function DecodeInt(s: seq<Byte>): int {
    ToSigned(FromLittle(s), |s|)
  }

  lemma IntRoundTrip(x: int, k: nat)
    requires InRange(x, k)
    ensures DecodeInt(EncodeInt(x, k)) == x
  {
    LittleRoundTrip(ToUnsigned(x, k), k);
  }

  // ---- network order ----

  function BigEndian(n: nat, k: nat): (s: seq<Byte>)
    ensures |s| == k
  {
    if k == 0 then [] else BigEndian(n / 256, k - 1) + [n % 256]
  }

  /** Byte i from the end is the digit of 256^i: the highest comes first. */
  lemma {:induction false} BigEndianAt(n: nat, k: nat, i: nat)
    requires i < k
    ensures BigEndian(n, k)[k - 1 - i] == n / Pow256(i) % 256
  {
    if i > 0 {
      BigEndianAt(n / 256, k - 1, i - 1);
      ModStep(n, Pow256(i - 1));
    }
  }

  function FromBig(s: seq<Byte>): nat {
    if s == [] then 0 else 256 * FromBig(s[..|s| - 1]) + s[|s| - 1]
  }

  /** A number keeps its low k bytes; what does not fit is cut off. */
  lemma {:induction false} BigRoundTrip(n: nat, k: nat)
    ensures FromBig(BigEndian(n, k)) == n % Pow256(k)
  {
    if k > 0 {
      BigRoundTrip(n / 256, k - 1);
      ModStep(n, Pow256(k - 1));
    }
  }

  lemma ModStep(n: nat, m: nat)
    requires m > 0
    ensures n % (256 * m) == 256 * (n / 256 % m) + n % 256 && n / (256 * m) == n / 256 / m
  {
    var q, a := n / 256, n % 256;
    var x := 256 * (q % m) + a;
    assert n == 256 * (m * (q / m)) + x;
    assert 256 * (m * (q / m)) == (q / m) * (256 * m);
    DivMod(q / m, x, 256 * m);
  }
}

// Fixed-width big-endian integers, as written and read by the byteorder crate.
module BigEndian {
  import opened Prelude

  function Pow256(k: nat): (p: int)
    ensures p > 0
    ensures k > 0 ==> p % 2 == 0
  {
    if k == 0 then 1 else 256 * Pow256(k - 1)
  }

  /** The low `k` bytes of the two's-complement form of `n`. */
  function Write(k: nat, n: int): (b: seq<Byte>)
    ensures |b| == k
  {
    if k == 0 then [] else Write(k - 1, n / 256) + [n % 256]
  }

  function ReadUnsigned(b: seq<Byte>): nat {
    if b == [] then 0 else 256 * ReadUnsigned(Front(b)) + Last(b)
  }

  function ReadSigned(b: seq<Byte>): int {
    AsSigned(|b|, ReadUnsigned(b))
  }

  function AsSigned(k: nat, u: nat): int {
    if 2 * u < Pow256(k) then u else u - Pow256(k)
  }

  /** `n as uN` and `n as iN` for N = 8k: reduction modulo 2^N. */
  function WrapUnsigned(k: nat, n: int): nat {
    n % Pow256(k)
  }

  function WrapSigned(k: nat, n: int): int {
    AsSigned(k, WrapUnsigned(k, n))
  }

  predicate FitsSigned(k: nat, n: int) {
    -Pow256(k) <= 2 * n < Pow256(k)
  }

  lemma {:induction false} ReadIsBounded(b: seq<Byte>)
    ensures ReadUnsigned(b) < Pow256(|b|)
  {
    if b != [] {
      ReadIsBounded(Front(b));
    }
  }

  /** Reading what was written yields the number modulo 256^k. */
  lemma {:induction false} ReadWrite(k: nat, n: int)
    ensures ReadUnsigned(Write(k, n)) == WrapUnsigned(k, n)
    ensures ReadSigned(Write(k, n)) == WrapSigned(k, n)
  {
    if k == 0 {
      assert n == 1 * n + 0;
      QuotientIsUnique(n, 1, n, 0);
    } else {
      ReadWrite(k - 1, n / 256);
      assert Front(Write(k, n)) == Write(k - 1, n / 256);
      SplitModulus(n, Pow256(k - 1));
    }
  }

  lemma SplitModulus(n: int, p: nat)
    requires p > 0
    ensures n % (256 * p) == 256 * ((n / 256) % p) + n % 256
    ensures n / (256 * p) == (n / 256) / p
  {
    var q := n / 256;
    var r := 256 * (q % p) + n % 256;
    assert q == p * (q / p) + q % p;
    assert n == (256 * p) * (q / p) + r by {
      assert 256 * (p * (q / p)) == (256 * p) * (q / p);
    }
    QuotientIsUnique(n, 256 * p, q / p, r);
  }

  /** The first byte is the most significant one. */
  lemma {:induction false} MostSignificantFirst(k: nat, n: int, i: nat)
    requires i < k
    ensures Write(k, n)[i] == (n / Pow256(k - 1 - i)) % 256
  {
    if i == k - 1 {
      assert n / 1 == n;
    } else {
      MostSignificantFirst(k - 1, n / 256, i);
      SplitModulus(n, Pow256(k - 2 - i));
    }
  }

  /** Writing what was read restores the bytes, whatever multiple of 256^k is added. */
  lemma {:induction false} WriteRead(b: seq<Byte>, laps: int)
    ensures Write(|b|, ReadUnsigned(b) + laps * Pow256(|b|)) == b
  {
    if b != [] {
      var p := Pow256(|b| - 1);
      var n := ReadUnsigned(b) + laps * Pow256(|b|);
      assert laps * (256 * p) == 256 * (laps * p);
      assert n == 256 * (ReadUnsigned(Front(b)) + laps * p) + Last(b);
      QuotientIsUnique(n, 256, ReadUnsigned(Front(b)) + laps * p, Last(b));
      WriteRead(Front(b), laps);
    }
  }

  lemma WriteReadSigned(b: seq<Byte>)
    ensures Write(|b|, ReadSigned(b)) == b
    ensures Write(|b|, ReadUnsigned(b)) == b
    ensures FitsSigned(|b|, ReadSigned(b))
  {
    hide Write, ReadUnsigned, Pow256;
    var u, p := ReadUnsigned(b), Pow256(|b|);
    ReadIsBounded(b);
    WriteRead(b, 0);
    WriteRead(b, -1);
    assert 0 * p == 0 && -1 * p == -p;
  }

  /** Numbers that fit survive; the others wrap. */
  lemma WrapKeepsExactlyWhatFits(k: nat, n: int)
    requires k > 0
    ensures WrapSigned(k, n) == n <==> FitsSigned(k, n)
    ensures WrapUnsigned(k, n) == n <==> 0 <= n < Pow256(k)
  {
    var p := Pow256(k);
    if 0 <= n < p {
      QuotientIsUnique(n, p, 0, n);
    } else if -p <= n < 0 {
      assert p * -1 == -p;
      QuotientIsUnique(n, p, -1, n + p);
    }
  }

  lemma Widths()
    ensures Pow256(1) == 0x100 && Pow256(2) == 0x1_0000 && Pow256(4) == 0x1_0000_0000
    ensures Pow256(8) == 0x1_0000_0000_0000_0000
  {
    assert Pow256(3) == 256 * Pow256(2);
    assert Pow256(5) == 256 * Pow256(4) && Pow256(6) == 256 * Pow256(5) && Pow256(7) == 256 * Pow256(6);
  }
}

/** Decimal numbers as `printf` writes them. */
module Decimals {
  import opened Bytes

  predicate IsDecimal(c: byte) { 0x30 <= c <= 0x39 }

  predicate AllDecimal(s: seq<byte>) { forall i :: 0 <= i < |s| ==> IsDecimal(s[i]) }

  /** What `%u` prints. */
  function Decimal(n: nat): (s: seq<byte>)
    ensures s != [] && AllDecimal(s)
  {
    if n < 10 then [0x30 + n] else Decimal(n / 10) + [0x30 + n % 10]
  }

  function DecimalValue(s: seq<byte>): nat
    requires AllDecimal(s)
  {
    if s == [] then 0 else 10 * DecimalValue(s[..|s| - 1]) + (s[|s| - 1] - 0x30)
  }

  lemma {:induction false} DecimalRoundTrip(n: nat)
    ensures DecimalValue(Decimal(n)) == n
  {
    if n < 10 {
      assert Decimal(n)[..0] == [];
    } else {
      DecimalRoundTrip(n / 10);
      assert Decimal(n)[..|Decimal(n)| - 1] == Decimal(n / 10);
    }
  }

  function Pow10(k: nat): nat { if k == 0 then 1 else 10 * Pow10(k - 1) }

  lemma {:induction false} DecimalSize(n: nat, k: nat)
    requires 0 < k && n < Pow10(k)
    ensures |Decimal(n)| <= k
  {
    if n >= 10 {
      assert k > 1 by { assert Pow10(1) == 10 * Pow10(0); }
      DecimalSize(n / 10, k - 1);
    }
  }

  lemma {:induction false} DecimalSizeAtLeast(n: nat, k: nat)
    requires Pow10(k) <= n
    ensures |Decimal(n)| > k
  {
    if k > 0 {
      DecimalSizeAtLeast(n / 10, k - 1);
    }
  }

  /** What `%ld` prints. */
  function Signed(n: int): (s: CString)
    ensures s != []
  {
    if n < 0 then [0x2D] + Decimal(-n) else Decimal(n)
  }

  /** A 64-bit number takes at most 20 characters. */
  lemma SignedSize(n: int)
    requires -0x8000_0000_0000_0000 <= n < 0x8000_0000_0000_0000
    ensures |Signed(n)| <= 20
  {
    assert Pow10(3) == 1000;
    assert Pow10(6) == 1000000;
    assert Pow10(9) == 1000000000;
    assert Pow10(12) == 1000000000000;
    assert Pow10(15) == 1000000000000000;
    assert Pow10(18) == 1000000000000000000;
    assert Pow10(19) == 10000000000000000000;
    DecimalSize(if n < 0 then -n else n, 19);
  }
}

/** Serial numbers as text: `BN_bn2hex`, `BN_hex2bn`, the check of a database field, and
    the key under which the serial index files a row. */
module SerialHex {
  import opened Arith
  import opened Bytes

  const HYPHEN: byte := 0x2D
  const ZERO: byte := 0x30

  predicate IsUpperHex(c: byte) { 0x30 <= c <= 0x39 || 0x41 <= c <= 0x46 }

  /** `isxdigit` */
  predicate IsHex(c: byte) { IsUpperHex(c) || 0x61 <= c <= 0x66 }

  function HexValueOf(c: byte): (v: nat)
    ensures v < 16
  {
    if 0x30 <= c <= 0x39 then c - 0x30
    else if 0x41 <= c <= 0x46 then c - 0x41 + 10
    else if 0x61 <= c <= 0x66 then c - 0x61 + 10
    else 0
  }

  function UpperHex(v: nat): (c: byte)
    requires v < 16
    ensures IsUpperHex(c) && HexValueOf(c) == v
  {
    if v < 10 then 0x30 + v else 0x41 + (v - 10)
  }

  predicate AllHex(s: seq<byte>) { forall i :: 0 <= i < |s| ==> IsHex(s[i]) }
  predicate AllUpperHex(s: seq<byte>) { forall i :: 0 <= i < |s| ==> IsUpperHex(s[i]) }

  /** The number that hexadecimal digits denote. */
  function HexValue(s: seq<byte>): nat {
    if s == [] then 0 else 16 * HexValue(s[..|s| - 1]) + HexValueOf(s[|s| - 1])
  }

  /** Two upper-case digits for each byte, and no leading zero byte. */
  function HexBytes(n: nat): (s: CString)
    ensures AllUpperHex(s) && |s| % 2 == 0
  {
    if n == 0 then [] else HexBytes(n / 256) + [UpperHex(n % 256 / 16), UpperHex(n % 16)]
  }

  /** `BN_bn2hex` */
  function Bn2Hex(n: int): CString {
    if n == 0 then [ZERO] else if n < 0 then [HYPHEN] + HexBytes(-n) else HexBytes(n)
  }

  /** The serial field of a row: zero is written with two digits. */
  function SerialText(n: int): CString {
    if n == 0 then [ZERO, ZERO] else Bn2Hex(n)
  }

  function Magnitude(s: seq<byte>): seq<byte> { if s != [] && s[0] == HYPHEN then s[1..] else s }

  /** The test of the load check: a sign, and an even number of hexadecimal digits. */
  predicate SerialOk(s: seq<byte>) {
    var m := Magnitude(s);
    |m| % 2 == 0 && |m| >= 2 && AllHex(m)
  }

  /** `BN_hex2bn`, on texts that are digits throughout. */
  function SerialValue(s: seq<byte>): int {
    var magnitude: int := HexValue(Magnitude(s));
    if s != [] && s[0] == HYPHEN then -magnitude else magnitude
  }

  /** The serial index compares texts from the first character that is not '0' on. */
  function StripZeros(s: seq<byte>): seq<byte> {
    if s != [] && s[0] == ZERO then StripZeros(s[1..]) else s
  }

  // ---------- values ----------

  lemma {:induction false} HexValueAppend(s: seq<byte>, t: seq<byte>, k: nat)
    requires |t| == 2
    ensures HexValue(s + t) == 256 * HexValue(s) + 16 * HexValueOf(t[0]) + HexValueOf(t[1])
  {
    var u := s + t;
    assert u[..|u| - 1] == s + [t[0]];
    assert (s + [t[0]])[..|s|] == s;
  }

  lemma DigitsOfByte(n: nat)
    ensures n == 256 * (n / 256) + 16 * (n % 256 / 16) + n % 16
  {
    DivModUnique(n % 256, 16, n % 256 / 16, n % 16);
  }

  lemma {:induction false} HexBytesValue(n: nat)
    ensures HexValue(HexBytes(n)) == n && (n > 0 ==> |HexBytes(n)| >= 2)
  {
    if n > 0 {
      var head, last := HexBytes(n / 256), [UpperHex(n % 256 / 16), UpperHex(n % 16)];
      HexBytesValue(n / 256);
      HexValueAppend(head, last, 0);
      DigitsOfByte(n);
    }
  }

  /** What is written for a serial passes the check and denotes the serial. */
  lemma SerialTextDenotes(n: int)
    ensures SerialOk(SerialText(n)) && SerialValue(SerialText(n)) == n
  {
    HexBytesValue(if n < 0 then -n else n);
    if n == 0 {
      assert [ZERO, ZERO] == [ZERO] + [ZERO] && [ZERO] == [ZERO] + [];
      LeadingZero([ZERO]);
      LeadingZero([]);
    } else if n > 0 {
      assert HexBytes(n)[0] != HYPHEN;
    } else {
      assert SerialText(n)[1..] == HexBytes(-n);
    }
  }

  lemma {:induction false} StripZerosValue(s: seq<byte>)
    ensures HexValue(StripZeros(s)) == HexValue(s)
    ensures StripZeros(s) != [] ==> StripZeros(s)[0] != ZERO
    ensures AllHex(s) ==> AllHex(StripZeros(s))
    ensures AllUpperHex(s) ==> AllUpperHex(StripZeros(s))
  {
    if s != [] && s[0] == ZERO {
      StripZerosValue(s[1..]);
      LeadingZero(s[1..]);
      assert s == [ZERO] + s[1..];
    }
  }

  lemma {:induction false} LeadingZero(s: seq<byte>)
    ensures HexValue([ZERO] + s) == HexValue(s)
  {
    if s == [] {
      assert [ZERO] + s == [ZERO] && [ZERO][..0] == [];
    } else {
      LeadingZero(s[..|s| - 1]);
      assert ([ZERO] + s)[..|s|] == [ZERO] + s[..|s| - 1];
    }
  }

  /** Rows that the index takes for the same serial have the same value. */
  lemma SameKeySameValue(s: seq<byte>, t: seq<byte>)
    requires SerialOk(s) && SerialOk(t) && StripZeros(s) == StripZeros(t)
    ensures SerialValue(s) == SerialValue(t)
  {
    StripZerosValue(s);
    StripZerosValue(t);
    HyphenSurvives(s);
    HyphenSurvives(t);
  }

  /** The sign of a checked serial is seen in its key. */
  lemma HyphenSurvives(s: seq<byte>)
    requires SerialOk(s)
    ensures s[0] == HYPHEN ==> StripZeros(s) == s
    ensures s[0] != HYPHEN ==> StripZeros(s) == [] || StripZeros(s)[0] != HYPHEN
  {
    if s[0] != HYPHEN { StripZerosValue(s); }
  }

  // ---------- canonical texts ----------

  /** A row is found under the text that is computed from its own serial number. */
  predicate IsFound(s: seq<byte>) { StripZeros(s) == StripZeros(SerialText(SerialValue(s))) }

  /** What a look at the text tells: capital letters only, and a negative number neither
      zero nor padded with a zero byte. */
  predicate IsCanonical(s: seq<byte>) {
    && AllUpperHex(Magnitude(s))
    && (s != [] && s[0] == HYPHEN && |s| >= 3 ==> !(s[1] == ZERO && s[2] == ZERO))
  }

  lemma {:induction false} SameDigits(s: seq<byte>, t: seq<byte>)
    requires AllUpperHex(s) && AllUpperHex(t) && HexValue(s) == HexValue(t)
    requires s != [] ==> s[0] != ZERO
    requires t != [] ==> t[0] != ZERO
    ensures s == t
  {
    if s == [] || t == [] {
      if s != [] { PositiveValue(s); }
      if t != [] { PositiveValue(t); }
    } else {
      var a, b := s[..|s| - 1], t[..|t| - 1];
      DivModUnique(HexValue(s), 16, HexValue(a), HexValueOf(s[|s| - 1]));
      DivModUnique(HexValue(t), 16, HexValue(b), HexValueOf(t[|t| - 1]));
      SameDigits(a, b);
      assert s == a + [s[|s| - 1]] && t == b + [t[|t| - 1]];
    }
  }

  lemma {:induction false} PositiveValue(s: seq<byte>)
    requires s != [] && AllHex(s) && s[0] != ZERO
    ensures HexValue(s) > 0
  {
    if |s| > 1 { PositiveValue(s[..|s| - 1]); }
  }

  /** Texts of whole bytes with a non-zero first byte are what `HexBytes` writes. */
  lemma {:induction false} SameBytes(s: seq<byte>)
    requires AllUpperHex(s) && |s| % 2 == 0 && |s| >= 2 && !(s[0] == ZERO && s[1] == ZERO)
    ensures s == HexBytes(HexValue(s)) && HexValue(s) > 0
  {
    var n := |s| - 2;
    var head, last := s[..n], s[n..];
    assert s == head + last;
    HexValueAppend(head, last, 0);
    var low := 16 * HexValueOf(last[0]) + HexValueOf(last[1]);
    DivModUnique(HexValue(s), 256, HexValue(head), low);
    DivModUnique(low, 16, HexValueOf(last[0]), HexValueOf(last[1]));
    DivModUnique(HexValue(s), 16, 16 * HexValue(head) + HexValueOf(last[0]), HexValueOf(last[1]));
    if n > 0 {
      SameBytes(head);
    } else {
      assert head == [];
    }
  }

  /** Among checked serials, those that are found are the canonical ones. */
  lemma FoundIfCanonical(s: seq<byte>)
    requires SerialOk(s)
    ensures IsFound(s) <==> IsCanonical(s)
  {
    var v := SerialValue(s);
    var t := SerialText(v);
    SerialTextDenotes(v);
    HyphenSurvives(s);
    HyphenSurvives(t);
    TextIsCanonical(v);
    if s[0] == HYPHEN {
      if IsCanonical(s) {
        SameBytes(s[1..]);
        assert s == [HYPHEN] + s[1..];
      }
    } else {
      StripZerosValue(s);
      StripZerosValue(t);
      if IsCanonical(s) {
        SameDigits(StripZeros(s), StripZeros(t));
      } else {
        LowerSurvives(s);
      }
    }
  }

  lemma TextIsCanonical(n: int)
    ensures IsCanonical(SerialText(n))
    ensures n >= 0 <==> SerialText(n)[..1] != [HYPHEN]
  {
    var t := SerialText(n);
    if n > 0 {
      HexBytesValue(n);
      assert IsUpperHex(t[0]);
    } else if n < 0 {
      assert t[1..] == HexBytes(-n);
      FirstByteNotZero(-n);
    }
  }

  lemma {:induction false} FirstByteNotZero(n: nat)
    requires n > 0
    ensures |HexBytes(n)| >= 2 && !(HexBytes(n)[0] == ZERO && HexBytes(n)[1] == ZERO)
  {
    if n / 256 > 0 {
      FirstByteNotZero(n / 256);
    } else {
      assert HexBytes(0) == [];
      DivModUnique(n, 16, n / 16, n % 16);
    }
  }

  /** Stripping zeros does not remove a lower-case digit. */
  lemma {:induction false} LowerSurvives(s: seq<byte>)
    requires !AllUpperHex(s)
    ensures !AllUpperHex(StripZeros(s))
  {
    if s != [] && s[0] == ZERO {
      assert s == [ZERO] + s[1..];
      LowerSurvives(s[1..]);
    }
  }

  /** Different serials have different keys. */
  lemma SerialTextKeys(m: int, n: int)
    ensures StripZeros(SerialText(m)) == StripZeros(SerialText(n)) <==> m == n
  {
    SerialTextDenotes(m);
    SerialTextDenotes(n);
    if StripZeros(SerialText(m)) == StripZeros(SerialText(n)) {
      SameKeySameValue(SerialText(m), SerialText(n));
    }
  }
}

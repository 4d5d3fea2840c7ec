/** The `[rounds=N$]salt` setting of the SHA password algorithms: how it is parsed, and
    how it is printed in front of the digest. */
module CryptSetting {
  import opened Bytes
  import opened Decimals

  const SALT_LEN_MAX: nat := 16
  const ROUNDS_DEFAULT: nat := 5000
  const ROUNDS_MIN: nat := 1000
  const ROUNDS_MAX: nat := 999999999
  const ULONG_MAX: nat := 0xFFFF_FFFF_FFFF_FFFF

  const DOLLAR: byte := 0x24
  /** "rounds=" */
  const ROUNDS_PREFIX: seq<byte> := [0x72, 0x6F, 0x75, 0x6E, 0x64, 0x73, 0x3D]

  // ---------- numbers in a setting ----------

  predicate IsSpace(c: byte) { c == 0x20 || 9 <= c <= 13 }

  function DecimalRun(s: seq<byte>): (n: nat)
    ensures n <= |s| && AllDecimal(s[..n])
  {
    if s == [] || !IsDecimal(s[0]) then 0 else
      var n := 1 + DecimalRun(s[1..]);
      assert s[..n] == [s[0]] + s[1..][..n - 1];
      n
  }

  lemma {:induction false} DecimalRunOf(d: seq<byte>, rest: seq<byte>)
    requires AllDecimal(d) && (rest == [] || !IsDecimal(rest[0]))
    ensures DecimalRun(d + rest) == |d|
  {
    if d == [] {
      assert d + rest == rest;
    } else {
      assert (d + rest)[1..] == d[1..] + rest;
      DecimalRunOf(d[1..], rest);
    }
  }

  function SpaceRun(s: seq<byte>): (n: nat)
    ensures n <= |s|
  {
    if s == [] || !IsSpace(s[0]) then 0 else 1 + SpaceRun(s[1..])
  }

  predicate HasSign(s: seq<byte>, at: nat) { at < |s| && (s[at] == 0x2B || s[at] == 0x2D) }

  /** A number that was read, in 64 bits. */
  function Wrapped(v: nat, negative: bool): (r: nat)
    ensures r <= ULONG_MAX
  {
    if v > ULONG_MAX then ULONG_MAX else if negative && v > 0 then ULONG_MAX + 1 - v else v
  }

  /** The number from place `first` on, and where it ends; without digits nothing is used. */
  function NumberFrom(s: seq<byte>, first: nat, negative: bool): (r: (nat, nat))
    requires first <= |s|
    ensures r.0 <= ULONG_MAX && r.1 <= |s|
  {
    var digits := DecimalRun(s[first..]);
    if digits == 0 then (0, 0) else (Wrapped(DecimalValue(s[first..][..digits]), negative), first + digits)
  }

  /** `strtoul(s, &end, 10)` with 64-bit longs: the value and how much of `s` it used. */
  function Strtoul(s: seq<byte>): (r: (nat, nat))
    ensures r.0 <= ULONG_MAX && r.1 <= |s|
  {
    var space := SpaceRun(s);
    if HasSign(s, space) then NumberFrom(s, space + 1, s[space] == 0x2D) else NumberFrom(s, space, false)
  }

  // ---------- settings ----------

  datatype Setting = Setting(custom: bool, rounds: nat, salt: seq<byte>)

  function Clamp(n: nat): (r: nat)
    ensures ROUNDS_MIN <= r <= ROUNDS_MAX
  {
    if n > ROUNDS_MAX then ROUNDS_MAX else if n < ROUNDS_MIN then ROUNDS_MIN else n
  }

  predicate HasRounds(salt: seq<byte>) { ROUNDS_PREFIX <= salt }

  /** The number after "rounds=" must be followed by a dollar sign. */
  function ParseSetting(salt: seq<byte>): (r: Option<Setting>)
    ensures r.Some? ==> |r.value.salt| <= SALT_LEN_MAX && ROUNDS_MIN <= r.value.rounds <= ROUNDS_MAX
  {
    if HasRounds(salt) then
      var num := salt[|ROUNDS_PREFIX|..];
      var (v, end) := Strtoul(num);
      if end < |num| && num[end] == DOLLAR
      then Some(Setting(true, Clamp(v), Prefix(num[end + 1..], SALT_LEN_MAX)))
      else None
    else Some(Setting(false, ROUNDS_DEFAULT, Prefix(salt, SALT_LEN_MAX)))
  }

  /** "rounds=N$" */
  function PrintRounds(n: nat): (s: CString) {
    ROUNDS_PREFIX + Decimal(n) + [DOLLAR]
  }

  function RoundsPart(t: Setting): CString { if t.custom then PrintRounds(t.rounds) else [] }

  /** The setting as it appears in the output. */
  function PrintSetting(t: Setting): seq<byte> { RoundsPart(t) + t.salt }

  lemma PrintedSize(t: Setting)
    requires t.rounds <= ROUNDS_MAX && |t.salt| <= SALT_LEN_MAX
    ensures |PrintSetting(t)| <= (if t.custom then 17 else 0) + |t.salt|
  {
    assert Pow10(3) == 1000;
    assert Pow10(6) == 1000000;
    assert Pow10(9) == 1000000000;
    DecimalSize(t.rounds, 9);
  }

  /** There are at most 17 + 16 characters, and only one kind of setting has them all. */
  lemma LongestPrintedSetting(t: Setting)
    requires t.rounds <= ROUNDS_MAX && |t.salt| <= SALT_LEN_MAX
    ensures |PrintSetting(t)| <= 33
    ensures |PrintSetting(t)| == 33 <==> t.custom && t.rounds >= 100000000 && |t.salt| == SALT_LEN_MAX
  {
    PrintedSize(t);
    assert Pow10(3) == 1000;
    assert Pow10(6) == 1000000;
    assert Pow10(8) == 100000000;
    if t.rounds >= 100000000 { DecimalSizeAtLeast(t.rounds, 8); } else { DecimalSize(t.rounds, 8); }
  }

  /** A custom number of rounds is read back whatever follows its dollar sign. */
  lemma ReparseRounds(n: nat, rest: seq<byte>)
    requires ROUNDS_MIN <= n <= ROUNDS_MAX
    ensures ParseSetting(ROUNDS_PREFIX + Decimal(n) + [DOLLAR] + rest)
         == Some(Setting(true, n, Prefix(rest, SALT_LEN_MAX)))
  {
    var d := Decimal(n);
    var text := ROUNDS_PREFIX + d + [DOLLAR] + rest;
    var num := text[|ROUNDS_PREFIX|..];
    assert num == d + ([DOLLAR] + rest);
    assert IsDecimal(num[0]);
    assert SpaceRun(num) == 0;
    DecimalRunOf(d, [DOLLAR] + rest);
    assert num[0..] == num && num[..|d|] == d;
    DecimalRoundTrip(n);
    assert Strtoul(num) == (n, |d|);
    assert num[|d| + 1..] == rest;
  }

  /** Without a "rounds=" of its own, a text is its own printed setting. */
  lemma ReparsePlain(rest: seq<byte>)
    requires !HasRounds(rest)
    ensures ParseSetting(rest) == Some(Setting(false, ROUNDS_DEFAULT, Prefix(rest, SALT_LEN_MAX)))
    ensures !HasRounds(Prefix(rest, SALT_LEN_MAX))
  {
  }

  lemma PrintedCustom(t: Setting, rest: seq<byte>)
    requires t.custom
    ensures PrintSetting(t) + rest == ROUNDS_PREFIX + Decimal(t.rounds) + [DOLLAR] + (t.salt + rest)
  {
  }

  /** The printed setting is a fixed point of parsing. */
  lemma PrintedSettingReparses(salt: seq<byte>)
    requires ParseSetting(salt).Some?
    ensures var t := ParseSetting(salt).value; ParseSetting(PrintSetting(t)) == Some(t)
  {
    var t := ParseSetting(salt).value;
    if t.custom {
      ReparseRounds(t.rounds, t.salt);
      PrintedCustom(t, []);
      assert PrintSetting(t) + [] == PrintSetting(t) && t.salt + [] == t.salt;
    } else {
      ReparsePlain(salt);
      ReparsePlain(t.salt);
      assert Prefix(t.salt, SALT_LEN_MAX) == t.salt;
      assert PrintSetting(t) == t.salt;
    }
  }

  lemma PrefixOfSaltAndMore(s: seq<byte>, digest: seq<byte>)
    requires |s| <= SALT_LEN_MAX
    ensures Prefix(s + ([DOLLAR] + digest), SALT_LEN_MAX) == s <==> |s| == SALT_LEN_MAX
  {
  }

  lemma NoRoundsAcrossDollar(s: seq<byte>, digest: seq<byte>)
    requires !HasRounds(s)
    ensures !HasRounds(s + ([DOLLAR] + digest))
  {
    var rest := s + ([DOLLAR] + digest);
    assert |s| < |ROUNDS_PREFIX| ==> rest[|s|] == DOLLAR;
    assert |s| >= |ROUNDS_PREFIX| ==> rest[..|ROUNDS_PREFIX|] == s[..|ROUNDS_PREFIX|];
  }

  /** Parsing a whole output line past its "$5$" keeps the setting exactly when the salt
      is full: the parser cuts a salt at 16 characters and never at a dollar sign. */
  lemma WholeOutputReparses(salt: seq<byte>, digest: seq<byte>)
    requires ParseSetting(salt).Some?
    ensures var t := ParseSetting(salt).value;
            ParseSetting(PrintSetting(t) + ([DOLLAR] + digest)) == Some(t) <==> |t.salt| == SALT_LEN_MAX
  {
    var t := ParseSetting(salt).value;
    var rest := t.salt + ([DOLLAR] + digest);
    PrefixOfSaltAndMore(t.salt, digest);
    if t.custom {
      ReparseRounds(t.rounds, rest);
      PrintedCustom(t, [DOLLAR] + digest);
    } else {
      ReparsePlain(salt);
      NoRoundsAcrossDollar(t.salt, digest);
      ReparsePlain(rest);
      assert PrintSetting(t) + ([DOLLAR] + digest) == rest;
    }
  }
}

/** One password of the `passwd` command: salt, truncation, algorithm and output line. */
module DoPasswd {
  import opened Bytes
  import opened CryptEncoding
  import opened CryptOutput
  import opened CryptSetting
  import opened Digest
  import opened ShaCrypt
  import Md5Crypt

  datatype Mode = ModeMd5 | ModeApr1 | ModeSha256 | ModeSha512 | ModeAixMd5

  /** The three digests the command uses. */
  datatype Suite = Suite(md5: HashFn, sha256: HashFn, sha512: HashFn)

  ghost predicate IsSuite(s: Suite) { IsHash(s.md5, 16) && IsHash(s.sha256, 32) && IsHash(s.sha512, 64) }

  const TAB: byte := 9
  const NEWLINE: byte := 10
  /** "1" and "apr1" */
  const MAGIC_MD5: CString := [0x31]
  const MAGIC_APR1: CString := [0x61, 0x70, 0x72, 0x31]

  predicate UsesSha(mode: Mode) { mode == ModeSha256 || mode == ModeSha512 }

  function SaltSize(mode: Mode): nat { if UsesSha(mode) then 16 else 8 }

  /** A random salt: six bits of each random byte. */
  function RandomSalt(random: seq<byte>): (salt: CString)
    ensures |salt| == |random|
    ensures AllDigits(salt)
  {
    seq(|random|, i requires 0 <= i < |random| => Digit(random[i] % 64))
  }

  function Hash(suite: Suite, mode: Mode, passwd: CString, salt: CString, zallocZero: bool): Option<seq<byte>>
    requires IsSuite(suite)
  {
    match mode
    case ModeMd5 => Md5Crypt.Md5CryptText(suite.md5, passwd, MAGIC_MD5, salt)
    case ModeApr1 => Md5Crypt.Md5CryptText(suite.md5, passwd, MAGIC_APR1, salt)
    case ModeAixMd5 => Md5Crypt.Md5CryptText(suite.md5, passwd, [], salt)
    case ModeSha256 => ShaCryptText(suite.sha256, suite.sha512, passwd, MAGIC_256, salt, zallocZero)
    case ModeSha512 => ShaCryptText(suite.sha256, suite.sha512, passwd, MAGIC_512, salt, zallocZero)
  }

  /** What a caller must avoid for the assertion that a hash was computed to hold. */
  predicate HashIsComputed(mode: Mode, passwd: seq<byte>, salt: seq<byte>, zallocZero: bool) {
    UsesSha(mode) ==>
      && (HasRounds(salt) ==>
            var num := salt[|ROUNDS_PREFIX|..];
            var end := Strtoul(num).1;
            end < |num| && num[end] == DOLLAR
            && (end + 1 == |num| ==> zallocZero))
      && (passwd == [] || salt == [] ==> zallocZero)
  }

  lemma HashIsComputedExactly(suite: Suite, mode: Mode, passwd: CString, salt: CString, zallocZero: bool)
    requires IsSuite(suite)
    ensures Hash(suite, mode, passwd, salt, zallocZero).Some? <==> HashIsComputed(mode, passwd, salt, zallocZero)
  {
  }

  /** A generated salt is never taken for a setting and never cut. */
  lemma RandomSaltIsItsSetting(random: seq<byte>)
    requires |random| <= SALT_LEN_MAX
    ensures ParseSetting(RandomSalt(random)) == Some(Setting(false, ROUNDS_DEFAULT, RandomSalt(random)))
  {
    var salt := RandomSalt(random);
    assert Prefix(salt, SALT_LEN_MAX) == salt;
    assert |salt| > 6 ==> IsDigit(salt[6]) && !IsDigit(ROUNDS_PREFIX[6]);
  }

  /** So hashing a password with a generated salt never trips the assertion. */
  lemma RandomSaltIsSafe(suite: Suite, mode: Mode, passwd: CString, random: seq<byte>, zallocZero: bool)
    requires IsSuite(suite) && |random| == SaltSize(mode) && passwd != []
    ensures Hash(suite, mode, passwd, RandomSalt(random), zallocZero).Some?
  {
    RandomSaltIsItsSetting(random);
  }

  /** `for (i = 0; i < saltlen; i++) salt[i] = cov_2char[salt[i] & 0x3f]; salt[i] = 0;` */
  method MakeSalt(random: seq<byte>) returns (salt: CString)
    ensures salt == RandomSalt(random)
  {
    var n := |random|;
    var buf := new byte[n + 1](_ => 0);
    Memcpy(buf, 0, random);
    var i := 0;
    while i < n
      invariant i <= n
      invariant forall k :: 0 <= k < i ==> buf[k] == Digit(random[k] % 64)
      invariant forall k :: i <= k < n ==> buf[k] == random[k]
    {
      buf[i] := Cov2Char(buf[i] % 64);
      i := i + 1;
    }
    buf[i] := 0;
    ghost var s := RandomSalt(random);
    assert buf[..n] == s;
    TextUnique(buf[..], s);
    salt := ReadString(buf);
  }

  datatype Outcome = Line(text: seq<byte>) | NoRandom | AssertionFailed

  /** The line that is printed for a password and its hash. */
  function PrintLine(table: bool, reverse: bool, passwd: seq<byte>, hash: seq<byte>): seq<byte> {
    if table && !reverse then passwd + [TAB] + hash + [NEWLINE]
    else if table then hash + [TAB] + passwd + [NEWLINE]
    else hash + [NEWLINE]
  }

  method ComputeHash(suite: Suite, mode: Mode, passwd: CString, salt: CString, zallocZero: bool)
    returns (hash: Option<seq<byte>>)
    requires IsSuite(suite) && |passwd| < 0x8000_0000
    ensures hash == Hash(suite, mode, passwd, salt, zallocZero)
  {
    hash := None;
    if mode == ModeMd5 || mode == ModeApr1 {
      hash := Md5Crypt.Crypt(suite.md5, passwd, if mode == ModeMd5 then MAGIC_MD5 else MAGIC_APR1, salt);
    }
    if mode == ModeAixMd5 {
      hash := Md5Crypt.Crypt(suite.md5, passwd, [], salt);
    }
    if mode == ModeSha256 || mode == ModeSha512 {
      hash := Crypt(suite.sha256, suite.sha512, passwd, if mode == ModeSha256 then MAGIC_256 else MAGIC_512,
                    salt, zallocZero);
    }
  }

  /** `random` is what the random generator delivers, if it delivers anything. */
  method Run(suite: Suite, passedSalt: bool, salt: CString, random: Option<seq<byte>>, passwd: CString,
             table: bool, reverse: bool, pwMaxlen: nat, mode: Mode, zallocZero: bool)
    returns (r: Outcome, saltUsed: CString)
    requires IsSuite(suite) && pwMaxlen < 0x8000_0000
    requires random.Some? ==> |random.value| == SaltSize(mode)
    ensures r == NoRandom <==> !passedSalt && random.None?
    ensures r != NoRandom ==> saltUsed == if passedSalt then salt else RandomSalt(random.value)
    ensures r != NoRandom ==>
      var pw := Prefix(passwd, pwMaxlen);
      && (r.Line? <==> HashIsComputed(mode, pw, saltUsed, zallocZero))
      && (r.Line? ==> var hash := Hash(suite, mode, pw, saltUsed, zallocZero);
                      hash.Some? && r.text == PrintLine(table, reverse, pw, hash.value))
  {
    saltUsed := salt;
    if !passedSalt {
      if random.None? {
        return NoRandom, saltUsed;
      }
      saltUsed := MakeSalt(random.value);
    }
    var pw: CString := passwd;
    if |passwd| > pwMaxlen {
      pw := passwd[..pwMaxlen];
    }
    assert pw == Prefix(passwd, pwMaxlen);
    var hash := ComputeHash(suite, mode, pw, saltUsed, zallocZero);
    HashIsComputedExactly(suite, mode, pw, saltUsed, zallocZero);
    if hash.None? {
      return AssertionFailed, saltUsed;
    }
    r := Line(PrintLine(table, reverse, pw, hash.value));
  }
}

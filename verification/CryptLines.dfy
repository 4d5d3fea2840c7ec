/** The lines that the password command prints, character by character: settings, salts,
    digests and the line itself. */
module CryptLines {
  import opened Arith
  import opened Bytes
  import opened CryptEncoding
  import opened CryptSetting
  import opened Decimals
  import opened Digest
  import opened DoPasswd
  import opened ShaCrypt
  import Md5Crypt

  // ---------- digests ----------

  /** "./0-9A-Za-z" stand for 0 to 63. */
  function LetterOf(v: nat): char
    requires v < 64
  {
    if v == 0 then '.'
    else if v == 1 then '/'
    else if v < 12 then '0' + (v - 2) as char
    else if v < 38 then 'A' + (v - 12) as char
    else 'a' + (v - 38) as char
  }

  lemma DigitIsLetter(v: nat)
    requires v < 64
    ensures Digit(v) == LetterOf(v) as int
  {
  }

  lemma DivDiv(w: nat, p: nat)
    requires p > 0
    ensures w / 64 / p == w / (64 * p)
  {
    var q, r := w / 64 / p, w / 64 % p;
    assert w / 64 == p * q + r && w == 64 * (w / 64) + w % 64;
    assert w == 64 * p * q + (64 * r + w % 64) by { assert 64 * (p * q) == 64 * p * q; }
    DivModUnique(w, 64 * p, q, 64 * r + w % 64);
  }

  lemma {:induction false} PowerPositive(j: nat)
    ensures Pow64(j) > 0
  {
    if j > 0 { PowerPositive(j - 1); }
  }

  /** Character `j` of a word is its base-64 digit number `j`, counted from the lowest. */
  lemma {:induction false} LetterAt(w: nat, n: nat, j: nat)
    requires j < n
    ensures Pow64(j) > 0 && EncodeWord(w, n)[j] == LetterOf(w / Pow64(j) % 64) as int
  {
    PowerPositive(j);
    if j == 0 {
      DigitIsLetter(w % 64);
      assert w / 1 == w;
    } else {
      PowerPositive(j - 1);
      LetterAt(w / 64, n - 1, j - 1);
      DivDiv(w, Pow64(j - 1));
    }
  }

  /** The bytes of each word, the highest first. */
  const GROUPS_256: seq<seq<nat>> := [
    [0, 10, 20], [21, 1, 11], [12, 22, 2], [3, 13, 23], [24, 4, 14],
    [15, 25, 5], [6, 16, 26], [27, 7, 17], [18, 28, 8], [9, 19, 29]
  ]

  const GROUPS_512: seq<seq<nat>> := [
    [0, 21, 42], [22, 43, 1], [44, 2, 23], [3, 24, 45], [25, 46, 4], [47, 5, 26], [6, 27, 48],
    [28, 49, 7], [50, 8, 29], [9, 30, 51], [31, 52, 10], [53, 11, 32], [12, 33, 54], [34, 55, 13],
    [56, 14, 35], [15, 36, 57], [37, 58, 16], [59, 17, 38], [18, 39, 60], [40, 61, 19], [62, 20, 41]
  ]

  lemma GroupsOf256(k: nat)
    requires k < 10
    ensures GROUPS_256[k] == [Index256(k, 0), Index256(k, 1), Index256(k, 2)]
  {
  }

  lemma GroupsOf512(k: nat)
    requires k < 21
    ensures GROUPS_512[k] == [Index512(k, 0), Index512(k, 1), Index512(k, 2)]
  {
  }

  /** The letter for the base-64 digit number `j` of three bytes. */
  function LetterOfThree(b2: byte, b1: byte, b0: byte, j: nat): int {
    PowerPositive(j);
    LetterOf((b2 * 65536 + b1 * 256 + b0) / Pow64(j) % 64) as int
  }

  lemma LetterOfWord(b2: byte, b1: byte, b0: byte, n: nat, j: nat)
    requires j < n
    ensures EncodeWord(Word(b2, b1, b0), n)[j] == LetterOfThree(b2, b1, b0, j)
  {
    LetterAt(Word(b2, b1, b0), n, j);
  }

  /** The 43 characters of a SHA-256 digest: ten groups, and the last two bytes. */
  lemma Text256Exactly(buf: seq<byte>, k: nat, j: nat)
    requires |buf| == 32 && k < 10 && j < 4
    ensures var g := GROUPS_256[k];
            && |g| == 3 && g[0] < 32 && g[1] < 32 && g[2] < 32
            && Encode256(buf)[4 * k + j] == LetterOfThree(buf[g[0]], buf[g[1]], buf[g[2]], j)
  {
    GroupsOf256(k);
    EncodeWordsAt(Words256(buf), k, j);
    LetterOfWord(buf[Index256(k, 0)], buf[Index256(k, 1)], buf[Index256(k, 2)], 4, j);
  }

  lemma End256Exactly(buf: seq<byte>, j: nat)
    requires |buf| == 32 && j < 3
    ensures Encode256(buf)[40 + j] == LetterOfThree(0, buf[31], buf[30], j)
  {
    LetterOfWord(0, buf[31], buf[30], 3, j);
  }

  /** The 86 characters of a SHA-512 digest: 21 groups, and the last byte. */
  lemma Text512Exactly(buf: seq<byte>, k: nat, j: nat)
    requires |buf| == 64 && k < 21 && j < 4
    ensures var g := GROUPS_512[k];
            && |g| == 3 && g[0] < 64 && g[1] < 64 && g[2] < 64
            && Encode512(buf)[4 * k + j] == LetterOfThree(buf[g[0]], buf[g[1]], buf[g[2]], j)
  {
    GroupsOf512(k);
    EncodeWordsAt(Words512(buf), k, j);
    LetterOfWord(buf[Index512(k, 0)], buf[Index512(k, 1)], buf[Index512(k, 2)], 4, j);
  }

  lemma End512Exactly(buf: seq<byte>, j: nat)
    requires |buf| == 64 && j < 2
    ensures Encode512(buf)[84 + j] == LetterOfThree(0, 0, buf[63], j)
  {
    LetterOfWord(0, 0, buf[63], 2, j);
  }

  /** The bytes of the permuted MD5 digest. */
  const ORDER_MD5: seq<nat> := [0, 6, 12, 1, 7, 13, 2, 8, 14, 3, 9, 15, 4, 10, 5, 11]

  lemma OrderOfMd5(d: nat)
    requires d < 16
    ensures ORDER_MD5[d] == IndexMd5(d)
  {
  }

  /** The 22 characters of an MD5 digest: five groups, and byte 11. */
  lemma TextMd5Exactly(buf: seq<byte>, k: nat, j: nat)
    requires |buf| == 16 && k < 5 && j < 4
    ensures var a, b, c := ORDER_MD5[3 * k], ORDER_MD5[3 * k + 1], ORDER_MD5[3 * k + 2];
            && a < 16 && b < 16 && c < 16
            && EncodeMd5(buf)[4 * k + j] == LetterOfThree(buf[a], buf[b], buf[c], j)
  {
    var perm := PermuteMd5(buf);
    OrderOfMd5(3 * k);
    OrderOfMd5(3 * k + 1);
    OrderOfMd5(3 * k + 2);
    EncodeWordsAt(WordsMd5(perm), k, j);
    assert WordsMd5(perm)[k] == Word(perm[3 * k], perm[3 * k + 1], perm[3 * k + 2]);
    LetterOfWord(perm[3 * k], perm[3 * k + 1], perm[3 * k + 2], 4, j);
  }

  lemma EndMd5Exactly(buf: seq<byte>, j: nat)
    requires |buf| == 16 && j < 2
    ensures EncodeMd5(buf)[20 + j] == LetterOfThree(0, 0, buf[11], j)
  {
    LetterOfWord(0, 0, PermuteMd5(buf)[15], 2, j);
  }

  // ---------- settings ----------

  predicate AllSpaces(s: seq<byte>) { forall i :: 0 <= i < |s| ==> s[i] == ' ' as int || 9 <= s[i] <= 13 }

  predicate NoSpace(s: seq<byte>) { s == [] || !AllSpaces(s[..1]) }

  predicate IsSign(s: seq<byte>) { s == [] || s == ['+' as int] || s == ['-' as int] }

  predicate NoSign(s: seq<byte>) { s == [] || (s[0] != '+' as int && s[0] != '-' as int) }

  /** What stands behind spaces and a sign, if no number begins there. */
  predicate NoFigure(s: seq<byte>) { s == [] || !('0' as int <= s[0] <= '9' as int) }

  lemma {:induction false} SpacesBefore(spaces: seq<byte>, rest: seq<byte>)
    requires AllSpaces(spaces) && NoSpace(rest)
    ensures SpaceRun(spaces + rest) == |spaces|
  {
    if spaces == [] {
      assert spaces + rest == rest;
    } else {
      assert (spaces + rest)[1..] == spaces[1..] + rest;
      SpacesBefore(spaces[1..], rest);
    }
  }

  /** Where the number begins behind spaces and a sign. */
  lemma {:induction false} SignBehind(spaces: seq<byte>, sign: seq<byte>, tail: seq<byte>)
    requires AllSpaces(spaces) && IsSign(sign)
    requires sign == [] ==> NoSpace(tail) && NoSign(tail)
    ensures var s := spaces + sign + tail;
            var first := |spaces| + |sign|;
            s[first..] == tail && Strtoul(s) == NumberFrom(s, first, sign == ['-' as int])
  {
    var s := spaces + sign + tail;
    var behind := sign + tail;
    assert s == spaces + behind;
    assert behind != [] ==> behind[0] == if sign == [] then tail[0] else sign[0];
    SpacesBefore(spaces, behind);
    assert |spaces| < |s| ==> s[|spaces|] == behind[0];
    assert HasSign(s, |spaces|) <==> sign != [];
  }

  lemma {:induction false} NumberIn(s: seq<byte>, first: nat, negative: bool, figures: seq<byte>, rest: seq<byte>)
    requires AllDecimal(figures) && figures != [] && (rest == [] || !IsDecimal(rest[0]))
    requires first <= |s| && s[first..] == figures + rest
    ensures NumberFrom(s, first, negative) == (Wrapped(DecimalValue(figures), negative), first + |figures|)
  {
    DecimalRunOf(figures, rest);
    assert s[first..][..|figures|] == figures;
  }

  /** A number in 64 bits: what exceeds them becomes the largest number, and a negative one
      counts down from 2 to the 64. */
  function In64Bits(v: nat, sign: seq<byte>): nat {
    if v >= 0x1_0000_0000_0000_0000 then 0xFFFF_FFFF_FFFF_FFFF
    else if sign == ['-' as int] && v > 0 then 0x1_0000_0000_0000_0000 - v
    else v
  }

  /** `strtoul` on a number, which may have spaces and a sign before it. */
  lemma {:induction false} NumberExactly(spaces: seq<byte>, sign: seq<byte>, figures: seq<byte>, rest: seq<byte>)
    requires AllSpaces(spaces) && IsSign(sign) && AllDecimal(figures) && figures != [] && NoFigure(rest)
    ensures Strtoul(spaces + sign + (figures + rest))
         == (In64Bits(DecimalValue(figures), sign), |spaces| + |sign| + |figures|)
  {
    var tail := figures + rest;
    assert tail[0] == figures[0];
    SignBehind(spaces, sign, tail);
    NumberIn(spaces + sign + tail, |spaces| + |sign|, sign == ['-' as int], figures, rest);
  }

  /** Without a number nothing is used, and the value is zero. */
  lemma {:induction false} NoNumber(spaces: seq<byte>, sign: seq<byte>, rest: seq<byte>)
    requires AllSpaces(spaces) && IsSign(sign) && NoFigure(rest)
    requires sign == [] ==> NoSpace(rest) && NoSign(rest)
    ensures Strtoul(spaces + sign + rest) == (0, 0)
  {
    SignBehind(spaces, sign, rest);
    assert DecimalRun(rest) == 0;
  }

  /** A salt argument without "rounds=" is 5000 rounds and its first 16 characters; with it, a
      number must be followed by a dollar sign, is taken to the range from 1000 to 999999999,
      and the salt is what follows the dollar sign. */
  lemma SettingExactly(salt: seq<byte>)
    ensures var prefix := Ascii("rounds=");
            if !(prefix <= salt) then ParseSetting(salt) == Some(Setting(false, 5000, Prefix(salt, 16)))
            else
              var (v, end) := Strtoul(salt[7..]);
              if 7 + end < |salt| && salt[7 + end] == '$' as int then
                ParseSetting(salt)
                == Some(Setting(true, if v < 1000 then 1000 else if v > 999999999 then 999999999 else v,
                                Prefix(salt[7 + end + 1..], 16)))
              else ParseSetting(salt) == None
  {
    assert Ascii("rounds=") == ROUNDS_PREFIX;
    if ROUNDS_PREFIX <= salt {
      var (v, end) := Strtoul(salt[7..]);
      assert 7 + end < |salt| ==> salt[7..][end] == salt[7 + end] && salt[7..][end + 1..] == salt[7 + end + 1..];
    }
  }

  // ---------- lines ----------

  /** The setting as it is printed. */
  function SettingText(t: Setting): seq<byte> {
    (if t.custom then Ascii("rounds=") + Decimal(t.rounds) + ['$' as int] else []) + t.salt
  }

  function DigestText(sha256: HashFn, sha512: HashFn, key: CString, magic: CString, t: Setting): seq<byte>
    requires IsHash(sha256, 32) && IsHash(sha512, 64)
  {
    if magic == ['5' as int] then Encode256(ShaDigest(sha256, 32, key, t.salt, t.rounds))
    else Encode512(ShaDigest(sha512, 64, key, t.salt, t.rounds))
  }

  /** "$5$" or "$6$", the rounds if they were given, the salt, and the digest of the right
      algorithm. */
  lemma ShaLineExactly(sha256: HashFn, sha512: HashFn, key: CString, magic: CString, salt: CString, zallocZero: bool)
    requires IsHash(sha256, 32) && IsHash(sha512, 64)
    ensures var r := ShaCryptText(sha256, sha512, key, magic, salt, zallocZero);
            var dollar := ['$' as int];
            && (r.Some? <==>
                  && (magic == ['5' as int] || magic == ['6' as int]) && ParseSetting(salt).Some?
                  && (zallocZero || (key != [] && ParseSetting(salt).value.salt != [])))
            && (r.Some? ==>
                  var t := ParseSetting(salt).value;
                  r.value == dollar + magic + dollar + SettingText(t) + dollar
                             + DigestText(sha256, sha512, key, magic, t))
  {
    assert Ascii("rounds=") == ROUNDS_PREFIX;
  }

  /** The magic string between dollar signs if there is one, eight characters of salt, and the
      digest. */
  lemma Md5LineExactly(md5: HashFn, key: CString, magic: CString, salt: CString)
    requires IsHash(md5, 16)
    ensures var r := Md5Crypt.Md5CryptText(md5, key, magic, salt);
            var dollar := ['$' as int];
            && (r.Some? <==> |magic| <= 4)
            && (r.Some? ==>
                  r.value == (if magic == [] then [] else dollar + magic + dollar) + Prefix(salt, 8) + dollar
                             + EncodeMd5(Md5Crypt.Md5Digest(md5, key, magic, Prefix(salt, 8))))
  {
  }

  /** Which algorithm a mode stands for, and how long its salts are. */
  lemma ModeExactly(suite: Suite, mode: Mode, passwd: CString, salt: CString, zallocZero: bool)
    requires IsSuite(suite)
    ensures var hash := Hash(suite, mode, passwd, salt, zallocZero);
            match mode
            case ModeMd5 => hash == Md5Crypt.Md5CryptText(suite.md5, passwd, Ascii("1"), salt)
            case ModeApr1 => hash == Md5Crypt.Md5CryptText(suite.md5, passwd, Ascii("apr1"), salt)
            case ModeAixMd5 => hash == Md5Crypt.Md5CryptText(suite.md5, passwd, [], salt)
            case ModeSha256 => hash == ShaCryptText(suite.sha256, suite.sha512, passwd, Ascii("5"), salt, zallocZero)
            case ModeSha512 => hash == ShaCryptText(suite.sha256, suite.sha512, passwd, Ascii("6"), salt, zallocZero)
    ensures SaltSize(mode) == if mode == ModeSha256 || mode == ModeSha512 then 16 else 8
  {
    assert Ascii("1") == MAGIC_MD5 && Ascii("apr1") == MAGIC_APR1;
    assert Ascii("5") == MAGIC_256 && Ascii("6") == MAGIC_512;
  }

  /** A generated salt has one letter for each random byte, by its six lowest bits. */
  lemma RandomSaltExactly(random: seq<byte>, i: nat)
    requires i < |random|
    ensures |RandomSalt(random)| == |random| && RandomSalt(random)[i] == LetterOf(random[i] % 64) as int
  {
    DigitIsLetter(random[i] % 64);
  }

  /** What is printed. */
  lemma LineExactly(table: bool, reverse: bool, passwd: seq<byte>, hash: seq<byte>)
    ensures PrintLine(table, reverse, passwd, hash)
         == (if !table then hash
             else if reverse then hash + ['\t' as int] + passwd
             else passwd + ['\t' as int] + hash) + ['\n' as int]
  {
  }
}

/** The SHA-256 and SHA-512 password algorithms: SHA-crypt.txt against `shacrypt`. */
module ShaCrypt {
  import opened Bytes
  import opened CryptEncoding
  import opened CryptOutput
  import opened CryptSetting
  import opened Decimals
  import opened Digest
  import opened KeyMixing
  import opened RoundSchedule

  const MAGIC_256: seq<byte> := [0x35]
  const MAGIC_512: seq<byte> := [0x36]

  /** "$5$rounds=999999999$" and 16 characters of salt, '$', 86 characters, and the NUL. */
  const OUT_SIZE: nat := 3 + 17 + 17 + 86 + 1

  // ---------- the standard ----------

  /** Digest B (steps 4-8). */
  function DigestB(h: HashFn, key: seq<byte>, salt: seq<byte>): seq<byte> { h(key + salt + key) }

  /** Digest A (steps 1-12). */
  function DigestA(h: HashFn, size: nat, key: seq<byte>, salt: seq<byte>): (d: seq<byte>)
    requires IsHash(h, size) && size > 0
    ensures |d| == size
  {
    var b := DigestB(h, key, salt);
    h(key + salt + Blocks(b, |key|) + BitFeed(LengthBits(|key|), b, key))
  }

  /** Sequence P (steps 13-16). */
  function SequenceP(h: HashFn, size: nat, key: seq<byte>): seq<byte>
    requires IsHash(h, size) && size > 0
  {
    Blocks(h(Repeat(key, |key|)), |key|)
  }

  /** How often the salt is hashed for sequence S (step 18). */
  function SaltRepeats(a: seq<byte>): nat
    requires a != []
  {
    var first: int := a[0];
    16 + first
  }

  /** Sequence S (steps 17-20). */
  function SequenceS(h: HashFn, size: nat, a: seq<byte>, salt: seq<byte>): seq<byte>
    requires IsHash(h, size) && size > 0 && |a| == size
  {
    Blocks(h(Repeat(salt, SaltRepeats(a))), |salt|)
  }

  /** The final digest (step 21). */
  function ShaDigest(h: HashFn, size: nat, key: seq<byte>, salt: seq<byte>, rounds: nat): (d: seq<byte>)
    requires IsHash(h, size) && size > 0
    ensures |d| == size
  {
    var a := DigestA(h, size, key, salt);
    var s, p := SequenceS(h, size, a, salt), SequenceP(h, size, key);
    StretchSize(h, size, rounds, a, s, p);
    Stretch(h, rounds, a, s, p)
  }

  /** The digest text of either algorithm. */
  function Encode(magic: seq<byte>, digest: seq<byte>): (t: seq<byte>)
    requires (magic == MAGIC_256 && |digest| == 32) || (magic == MAGIC_512 && |digest| == 64)
    ensures |t| == if magic == MAGIC_256 then 43 else 86
    ensures 0 !in t
  {
    if magic == MAGIC_256 then
      RunIsDigits(Words256(digest), Word(0, digest[31], digest[30]), 3);
      Encode256(digest)
    else
      RunIsDigits(Words512(digest), Word(0, 0, digest[63]), 2);
      Encode512(digest)
  }

  /** The printed result (step 22), if there is one. `zallocZero` tells whether
      allocating no bytes yields a buffer. */
  function ShaCryptText(sha256: HashFn, sha512: HashFn, key: CString, magic: CString, salt: CString,
                        zallocZero: bool): Option<seq<byte>>
    requires IsHash(sha256, 32) && IsHash(sha512, 64)
  {
    if magic != MAGIC_256 && magic != MAGIC_512 then None
    else if ParseSetting(salt).None? then None
    else
      var t := ParseSetting(salt).value;
      if (key == [] || t.salt == []) && !zallocZero then None
      else
        var digest := if magic == MAGIC_256 then ShaDigest(sha256, 32, key, t.salt, t.rounds)
                      else ShaDigest(sha512, 64, key, t.salt, t.rounds);
        Some([DOLLAR] + magic + [DOLLAR] + PrintSetting(t) + [DOLLAR] + Encode(magic, digest))
  }

  /** Sequences P and S are the digests DP and DS read cyclically. */
  lemma SequencesAreCyclic(h: HashFn, size: nat, key: seq<byte>, salt: seq<byte>, i: nat)
    requires IsHash(h, size) && size > 0
    ensures var a := DigestA(h, size, key, salt);
            && |SequenceP(h, size, key)| == |key|
            && |SequenceS(h, size, a, salt)| == |salt|
            && (i < |key| ==> SequenceP(h, size, key)[i] == h(Repeat(key, |key|))[i % size])
            && (i < |salt| ==> SequenceS(h, size, a, salt)[i] == h(Repeat(salt, SaltRepeats(a)))[i % size])
  {
    var a := DigestA(h, size, key, salt);
    if i < |key| { BlocksAt(h(Repeat(key, |key|)), |key|, i); }
    if i < |salt| { BlocksAt(h(Repeat(salt, SaltRepeats(a))), |salt|, i); }
  }

  /** The longest output fills the buffer exactly, NUL included, and nothing exceeds it. */
  lemma OutputFits(sha256: HashFn, sha512: HashFn, key: CString, magic: CString, salt: CString, zallocZero: bool)
    requires IsHash(sha256, 32) && IsHash(sha512, 64)
    requires ShaCryptText(sha256, sha512, key, magic, salt, zallocZero).Some?
    ensures var text := ShaCryptText(sha256, sha512, key, magic, salt, zallocZero).value;
            var t := ParseSetting(salt).value;
            && |text| + 1 <= OUT_SIZE
            && (|text| + 1 == OUT_SIZE <==>
                magic == MAGIC_512 && t.custom && t.rounds >= 100000000 && |t.salt| == SALT_LEN_MAX)
  {
    PrintedSize(ParseSetting(salt).value);
    LongestPrintedSetting(ParseSetting(salt).value);
  }

  /** Hashing again with the printed setting gives the same line: the setting is all that
      a line has to record. */
  lemma PrintedSettingRegenerates(sha256: HashFn, sha512: HashFn, key: CString, magic: CString, salt: CString,
                                  zallocZero: bool)
    requires IsHash(sha256, 32) && IsHash(sha512, 64)
    requires ParseSetting(salt).Some?
    ensures var t := ParseSetting(salt).value;
            && 0 !in PrintSetting(t)
            && ShaCryptText(sha256, sha512, key, magic, PrintSetting(t), zallocZero)
               == ShaCryptText(sha256, sha512, key, magic, salt, zallocZero)
  {
    PrintedSettingReparses(salt);
  }

  /** Lines that agree after their settings come from equal digests. */
  lemma EqualTextsEqualDigests(magic: seq<byte>, d: seq<byte>, e: seq<byte>)
    requires (magic == MAGIC_256 && |d| == |e| == 32) || (magic == MAGIC_512 && |d| == |e| == 64)
    requires Encode(magic, d) == Encode(magic, e)
    ensures d == e
  {
    if magic == MAGIC_256 {
      Lossless256(d);
      Lossless256(e);
    } else {
      Lossless512(d);
      Lossless512(e);
    }
  }

  // ---------- the code ----------

  /** Digest A through two contexts, of which the second computes digest B. */
  method ComputeDigestA(h: HashFn, size: nat, md: MdCtx, md2: MdCtx, passwd: seq<byte>, salt: seq<byte>)
    returns (buf: seq<byte>)
    requires IsHash(h, size) && size > 0 && md != md2
    modifies md, md2
    ensures buf == DigestA(h, size, passwd, salt)
  {
    md.Init();
    md.Update(passwd);
    md.Update(salt);
    assert md.fed == passwd + salt;
    buf := ComputeB(h, md2, passwd, salt);
    FeedBlocks(md, buf, |passwd|);
    FeedLengthBits(md, |passwd|, buf, passwd);
    buf := md.Final(h);
  }

  /** Hashes `times` copies of `src` and spreads the digest over a new buffer, which is
      null when no bytes are wanted and the allocator gives none. */
  method ComputeSequence(h: HashFn, size: nat, md2: MdCtx, src: seq<byte>, times: nat, zallocZero: bool)
    returns (bytes: array?<byte>)
    requires IsHash(h, size) && size > 0
    modifies md2
    ensures bytes == null <==> src == [] && !zallocZero
    ensures bytes != null ==> fresh(bytes) && bytes[..] == Blocks(h(Repeat(src, times)), |src|)
  {
    md2.Init();
    FeedRepeated(md2, src, times);
    assert md2.fed == Repeat(src, times);
    var temp := md2.Final(h);
    if src == [] && !zallocZero {
      return null;
    }
    bytes := new byte[|src|](_ => 0);
    FillBlocks(bytes, temp);
  }

  method ComputeDigest(h: HashFn, size: nat, passwd: seq<byte>, salt: seq<byte>, rounds: nat, zallocZero: bool)
    returns (r: Option<seq<byte>>)
    requires IsHash(h, size) && size > 0
    ensures r == if (passwd == [] || salt == []) && !zallocZero then None
                 else Some(ShaDigest(h, size, passwd, salt, rounds))
  {
    var md := new MdCtx();
    var md2 := new MdCtx();
    var buf := ComputeDigestA(h, size, md, md2, passwd, salt);
    var pBytes := ComputeSequence(h, size, md2, passwd, |passwd|, zallocZero);
    if pBytes == null {
      return None;
    }
    var sBytes := ComputeSequence(h, size, md2, salt, SaltRepeats(buf), zallocZero);
    if sBytes == null {
      return None;
    }
    buf := RunRounds(h, md2, rounds, buf, sBytes[..], pBytes[..]);
    r := Some(buf);
  }

  method WriteMagic(out: array<byte>, magic: CString)
    requires |magic| == 1 && 3 < out.Length
    modifies out
    ensures 0 in out[..] && Text(out[..]) == [DOLLAR] + magic + [DOLLAR]
  {
    out[0] := 0;
    TextUnique(out[..], []);
    AppendAll(out, [DOLLAR]);
    assert Text(out[..]) == [DOLLAR];
    AppendAll(out, magic);
    AppendAll(out, [DOLLAR]);
  }

  method WriteRounds(out: array<byte>, t: Setting)
    requires 0 in out[..] && |Text(out[..])| + |RoundsPart(t)| < out.Length
    modifies out
    ensures 0 in out[..] && Text(out[..]) == old(Text(out[..])) + RoundsPart(t)
  {
    ghost var head := Text(out[..]);
    if t.custom {
      AppendAll(out, ROUNDS_PREFIX + Decimal(t.rounds));
      AppendAll(out, [DOLLAR]);
      assert head + RoundsPart(t) == head + (ROUNDS_PREFIX + Decimal(t.rounds)) + [DOLLAR];
    } else {
      assert head + RoundsPart(t) == head;
    }
  }

  method WriteSetting(out: array<byte>, t: Setting)
    requires 0 !in t.salt && 0 in out[..] && |Text(out[..])| + |PrintSetting(t)| < out.Length
    modifies out
    ensures 0 in out[..] && Text(out[..]) == old(Text(out[..])) + PrintSetting(t)
  {
    ghost var head := Text(out[..]);
    WriteRounds(out, t);
    AppendAll(out, t.salt);
    assert head + RoundsPart(t) + t.salt == head + PrintSetting(t);
  }

  /** Everything behind the salt, written through the cursor `cp` without a bound check. */
  method WriteDigest(out: array<byte>, magic: seq<byte>, digest: seq<byte>)
    requires (magic == MAGIC_256 && |digest| == 32) || (magic == MAGIC_512 && |digest| == 64)
    requires 0 in out[..] && |Text(out[..])| + 1 + |Encode(magic, digest)| < out.Length
    modifies out
    ensures 0 in out[..] && Text(out[..]) == old(Text(out[..])) + [DOLLAR] + Encode(magic, digest)
  {
    var cp := Strlen(out);
    ghost var head := Text(out[..]);
    out[cp] := DOLLAR;
    cp := cp + 1;
    assert out[..cp] == head + [DOLLAR];
    if magic == MAGIC_256 {
      cp := EmitSha256(out, cp, digest);
    } else {
      cp := EmitSha512(out, cp, digest);
    }
    ghost var text := out[..cp];
    assert text == head + [DOLLAR] + Encode(magic, digest);
    out[cp] := 0;
    assert out[..cp] == text;
    TextUnique(out[..], text);
  }

  method Crypt(sha256: HashFn, sha512: HashFn, passwd: CString, magic: CString, salt: CString, zallocZero: bool)
    returns (r: Option<seq<byte>>)
    requires IsHash(sha256, 32) && IsHash(sha512, 64)
    ensures r == ShaCryptText(sha256, sha512, passwd, magic, salt, zallocZero)
  {
    if magic != MAGIC_256 && magic != MAGIC_512 {
      return None;
    }
    var setting := ParseSetting(salt);
    if setting.None? {
      return None;
    }
    var t := setting.value;
    var out := new byte[OUT_SIZE](_ => 0);
    PrintedSize(t);
    WriteMagic(out, magic);
    WriteSetting(out, t);
    var len := Strlen(out);
    if len > 3 + (if t.custom then 17 else 0) + |t.salt| {
      assert false;
    }
    var digest;
    if magic == MAGIC_256 {
      digest := ComputeDigest(sha256, 32, passwd, t.salt, t.rounds, zallocZero);
    } else {
      digest := ComputeDigest(sha512, 64, passwd, t.salt, t.rounds, zallocZero);
    }
    if digest.None? {
      return None;
    }
    WriteDigest(out, magic, digest.value);
    var text := ReadString(out);
    r := Some(text);
  }
}

/** The MD5 password algorithm in its BSD, Apache and AIX forms: `md5crypt`. */
module Md5Crypt {
  import opened Arith
  import opened Bytes
  import opened CryptEncoding
  import opened CryptOutput
  import opened CryptSetting
  import opened Digest
  import opened KeyMixing
  import opened RoundSchedule

  /** "$apr1$..salt..$.......md5hash..........\0" */
  const OUT_SIZE: nat := 6 + 9 + 24 + 2
  const MD5_SALT_MAX: nat := 8
  const MD5_ROUNDS: nat := 1000

  /** "$magic$", or nothing for the AIX form. */
  function MagicText(magic: seq<byte>): seq<byte> {
    if magic == [] then [] else [DOLLAR] + magic + [DOLLAR]
  }

  function Md5DigestA(md5: HashFn, key: seq<byte>, magic: seq<byte>, salt: seq<byte>): (d: seq<byte>)
    requires IsHash(md5, 16)
    ensures |d| == 16
  {
    var b := md5(key + salt + key);
    md5(key + MagicText(magic) + salt + Blocks(b, |key|) + BitFeed(LengthBits(|key|), [0], Prefix(key, 1)))
  }

  function Md5Digest(md5: HashFn, key: seq<byte>, magic: seq<byte>, salt: seq<byte>): (d: seq<byte>)
    requires IsHash(md5, 16)
    ensures |d| == 16
  {
    var a := Md5DigestA(md5, key, magic, salt);
    StretchSize(md5, 16, MD5_ROUNDS, a, salt, key);
    Stretch(md5, MD5_ROUNDS, a, salt, key)
  }

  function Md5CryptText(md5: HashFn, key: seq<byte>, magic: seq<byte>, salt: seq<byte>): Option<seq<byte>>
    requires IsHash(md5, 16)
  {
    if |magic| > 4 then None
    else
      var s := Prefix(salt, MD5_SALT_MAX);
      Some(MagicText(magic) + s + [DOLLAR] + EncodeMd5(Md5Digest(md5, key, magic, s)))
  }

  // ---------- the code ----------

  method ComputeMd5A(md5: HashFn, md: MdCtx, md2: MdCtx, passwd: seq<byte>, magic: seq<byte>, salt: seq<byte>)
    returns (buf: seq<byte>)
    requires IsHash(md5, 16) && md != md2
    modifies md, md2
    ensures buf == Md5DigestA(md5, passwd, magic, salt)
  {
    md.Init();
    md.Update(passwd);
    if |magic| > 0 {
      md.Update([DOLLAR]);
      md.Update(magic);
      md.Update([DOLLAR]);
    }
    md.Update(salt);
    assert md.fed == passwd + MagicText(magic) + salt;
    buf := ComputeB(md5, md2, passwd, salt);
    FeedBlocks(md, buf, |passwd|);
    FeedLengthBits(md, |passwd|, [0], Prefix(passwd, 1));
    buf := md.Final(md5);
  }

  lemma NextSource(dest: nat)
    requires dest < 14
    ensures 6 * dest % 17 < 16 && IndexMd5(dest) == 6 * dest % 17
    ensures (6 * dest % 17 + 6) % 17 == 6 * (dest + 1) % 17
  {
  }

  /** The walk that permutes the digest before it is printed. */
  method Permute(buf: seq<byte>) returns (perm: array<byte>)
    requires |buf| == 16
    ensures fresh(perm) && perm[..] == PermuteMd5(buf)
  {
    perm := new byte[16](_ => 0);
    var dest, source := 0, 0;
    while dest < 14
      invariant 0 <= dest <= 14 && source == 6 * dest % 17
      invariant forall d :: 0 <= d < dest ==> perm[d] == buf[IndexMd5(d)]
    {
      NextSource(dest);
      perm[dest] := buf[source];
      source := (source + 6) % 17;
      dest := dest + 1;
    }
    perm[14] := buf[5];
    perm[15] := buf[11];
  }

  /** The four characters of three bytes, by their bits: the hand-unrolled packing. */
  function Packed(b2: byte, b1: byte, b0: byte): seq<byte> {
    [Digit(b0 % 64), Digit(b1 % 16 * 4 + b0 / 64), Digit(b2 % 4 * 16 + b1 / 16), Digit(b2 / 4)]
  }

  /** The hand-unrolled packing is the macro of the SHA algorithms. */
  lemma PackedIsEncodedWord(b2: byte, b1: byte, b0: byte)
    ensures Packed(b2, b1, b0) == EncodeWord(Word(b2, b1, b0), 4)
  {
    WordDigits(b2, b1, b0);
    EncodeFour(Word(b2, b1, b0), b0 % 64, b1 % 16 * 4 + b0 / 64, b2 % 4 * 16 + b1 / 16, b2 / 4);
  }

  lemma EncodeFour(w: nat, d0: nat, d1: nat, d2: nat, d3: nat)
    requires w % 64 == d0 && w / 64 % 64 == d1 && w / 64 / 64 % 64 == d2 && w / 64 / 64 / 64 % 64 == d3
    ensures EncodeWord(w, 4) == [Digit(d0), Digit(d1), Digit(d2), Digit(d3)]
  {
    var w1 := w / 64;
    var w2 := w1 / 64;
    assert EncodeWord(w2 / 64, 1) == [Digit(d3)];
    assert EncodeWord(w2, 2) == [Digit(d2)] + EncodeWord(w2 / 64, 1);
    assert EncodeWord(w1, 3) == [Digit(d1)] + EncodeWord(w2, 2);
    assert EncodeWord(w, 4) == [Digit(d0)] + EncodeWord(w1, 3);
  }

  lemma WordDigits(b2: byte, b1: byte, b0: byte)
    ensures var w := Word(b2, b1, b0);
            && w % 64 == b0 % 64
            && w / 64 % 64 == b1 % 16 * 4 + b0 / 64
            && w / 64 / 64 % 64 == b2 % 4 * 16 + b1 / 16
            && w / 64 / 64 / 64 % 64 == b2 / 4
  {
    var w := Word(b2, b1, b0);
    DivModUnique(w, 64, b2 * 1024 + b1 * 4 + b0 / 64, b0 % 64);
    DivModUnique(w / 64, 64, b2 * 16 + b1 / 16, b1 % 16 * 4 + b0 / 64);
    DivModUnique(w / 64 / 64, 64, b2 / 4, b2 % 4 * 16 + b1 / 16);
  }

  /** The body of the packing loop. */
  method EmitThree(out: array<byte>, cp: nat, b2: byte, b1: byte, b0: byte) returns (next: nat)
    requires cp + 4 < out.Length
    modifies out
    ensures next == cp + 4 && out[..next] == old(out[..cp]) + EncodeWord(Word(b2, b1, b0), 4)
  {
    out[cp] := Cov2Char(b0 % 64);
    out[cp + 1] := Cov2Char(b1 % 16 * 4 + b0 / 64);
    out[cp + 2] := Cov2Char(b2 % 4 * 16 + b1 / 16);
    out[cp + 3] := Cov2Char(b2 / 4);
    next := cp + 4;
    assert out[..next] == old(out[..cp]) + Packed(b2, b1, b0);
    PackedIsEncodedWord(b2, b1, b0);
  }

  lemma RunGrows(head: seq<byte>, ws: seq<nat>, k: nat)
    requires k < |ws|
    ensures head + EncodeWords(ws[..k]) + EncodeWord(ws[k], 4) == head + EncodeWords(ws[..k + 1])
  {
    assert ws[..k + 1][..k] == ws[..k];
  }

  method EmitGroups(out: array<byte>, start: nat, perm: seq<byte>) returns (output: nat)
    requires start + 20 < out.Length && |perm| == 16
    modifies out
    ensures output == start + 20 && out[..output] == old(out[..start]) + EncodeWords(WordsMd5(perm))
  {
    ghost var head, ws, k := out[..start], WordsMd5(perm), 0;
    var i := 0;
    output := start;
    assert head + EncodeWords(ws[..0]) == head;
    while i < 15
      invariant 0 <= k <= 5 && i == 3 * k && output == start + 4 * k
      invariant out[..output] == head + EncodeWords(ws[..k])
      decreases 15 - i
    {
      assert ws[k] == Word(perm[3 * k], perm[3 * k + 1], perm[3 * k + 2]);
      output := EmitThree(out, output, perm[i], perm[i + 1], perm[i + 2]);
      RunGrows(head, ws, k);
      i := i + 3;
      k := k + 1;
    }
    assert ws[..5] == ws;
  }

  method EmitLast(out: array<byte>, cp: nat, b: byte) returns (output: nat)
    requires cp + 2 < out.Length
    modifies out
    ensures output == cp + 2 && out[..output] == old(out[..cp]) + EncodeWord(Word(0, 0, b), 2)
  {
    out[cp] := Cov2Char(b % 64);
    out[cp + 1] := Cov2Char(b / 64);
    output := cp + 2;
    assert out[..output] == old(out[..cp]) + [Digit(b % 64), Digit(b / 64)];
    LastTwo(b);
  }

  lemma LastTwo(b: byte)
    ensures EncodeWord(Word(0, 0, b), 2) == [Digit(b % 64), Digit(b / 64)]
  {
    EncodeTwo(b, b % 64, b / 64);
  }

  lemma EncodeTwo(w: nat, d0: nat, d1: nat)
    requires w % 64 == d0 && w / 64 == d1 < 64
    ensures EncodeWord(w, 2) == [Digit(d0), Digit(d1)]
  {
    assert EncodeWord(d1, 1) == [Digit(d1)];
    assert EncodeWord(w, 2) == [Digit(d0)] + EncodeWord(d1, 1);
  }

  method EmitMd5(out: array<byte>, start: nat, buf: seq<byte>) returns (output: nat)
    requires start + 22 < out.Length && |buf| == 16
    modifies out
    ensures output == start + 22 && out[..output] == old(out[..start]) + EncodeMd5(buf)
  {
    var perm := Permute(buf);
    output := EmitGroups(out, start, perm[..]);
    output := EmitLast(out, output, perm[15]);
  }

  /** Everything behind the salt, from `salt_out + salt_len` on. */
  method WriteMd5(out: array<byte>, start: nat, buf: seq<byte>)
    requires 0 in out[..] && start == |Text(out[..])| && start + 23 < out.Length && |buf| == 16
    modifies out
    ensures 0 in out[..] && Text(out[..]) == old(Text(out[..])) + [DOLLAR] + EncodeMd5(buf)
  {
    ghost var head := Text(out[..]);
    out[start] := DOLLAR;
    assert out[..start + 1] == head + [DOLLAR];
    var output := EmitMd5(out, start + 1, buf);
    ghost var text := out[..output];
    assert text == head + [DOLLAR] + EncodeMd5(buf);
    out[output] := 0;
    assert out[..output] == text;
    RunIsDigits(WordsMd5(PermuteMd5(buf)), Word(0, 0, PermuteMd5(buf)[15]), 2);
    TextUnique(out[..], text);
  }

  /** The output up to the salt; a magic string of more than four characters fails once
      its dollar sign is written. */
  method WriteMd5Header(out: array<byte>, magic: CString, s: CString) returns (ok: bool)
    requires out.Length == OUT_SIZE && |s| <= MD5_SALT_MAX
    modifies out
    ensures ok <==> |magic| <= 4
    ensures ok ==> 0 in out[..] && Text(out[..]) == MagicText(magic) + s
  {
    out[0] := 0;
    TextUnique(out[..], []);
    if |magic| > 0 {
      AppendAll(out, [DOLLAR]);
      assert Text(out[..]) == [DOLLAR];
      if |magic| > 4 {
        return false;
      }
      AppendAll(out, magic);
      AppendAll(out, [DOLLAR]);
    }
    assert Text(out[..]) == MagicText(magic);
    AppendAll(out, s);
    ok := true;
  }

  /** `out_buf` is never too short, so neither length check can fail. */
  method Crypt(md5: HashFn, passwd: CString, magic: CString, salt: CString) returns (r: Option<seq<byte>>)
    requires IsHash(md5, 16) && |passwd| < 0x8000_0000
    ensures r == Md5CryptText(md5, passwd, magic, salt)
  {
    var out := new byte[OUT_SIZE](_ => 0);
    var s := Prefix(salt, MD5_SALT_MAX);
    var ok := WriteMd5Header(out, magic, s);
    if !ok {
      return None;
    }
    var len := Strlen(out);
    if len > 6 + 8 || |s| > 8 {
      assert false;
    }
    var md := new MdCtx();
    var md2 := new MdCtx();
    var buf := ComputeMd5A(md5, md, md2, passwd, magic, s);
    buf := RunRounds(md5, md2, MD5_ROUNDS, buf, s, passwd);
    WriteMd5(out, len, buf);
    var text := ReadString(out);
    r := Some(text);
  }
}

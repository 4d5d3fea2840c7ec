/** What the password algorithms hash, byte by byte: every message is described by its own
    bytes, for every password, salt and number of rounds. */
module CryptMessages {
  import opened Arith
  import opened Bytes
  import opened Digest
  import opened KeyMixing
  import opened RoundSchedule
  import Md5Crypt
  import ShaCrypt

  // ---------- pieces of messages ----------

  /** The first `len` bytes of `d`, `d`, `d` and so on. */
  predicate IsCycle(m: seq<byte>, d: seq<byte>, len: nat) {
    |m| == len && forall i :: 0 <= i < len ==> |d| > 0 && m[i] == d[i % |d|]
  }

  function Concat(pieces: seq<seq<byte>>): seq<byte> {
    if pieces == [] then [] else pieces[0] + Concat(pieces[1..])
  }

  function Power2(k: nat): (p: nat)
    ensures p > 0
  {
    if k == 0 then 1 else 2 * Power2(k - 1)
  }

  /** `n` has this many binary digits. */
  predicate HasDigits(n: nat, count: nat) {
    if n == 0 then count == 0 else count > 0 && Power2(count - 1) <= n < Power2(count)
  }

  predicate IsBitPiece(piece: seq<byte>, n: nat, j: nat, one: seq<byte>, zero: seq<byte>) {
    piece == if n / Power2(j) % 2 == 1 then one else zero
  }

  /** One piece for each binary digit of `n`, the lowest first. */
  predicate AreBitPieces(pieces: seq<seq<byte>>, n: nat, one: seq<byte>, zero: seq<byte>) {
    HasDigits(n, |pieces|) && forall j: nat :: j < |pieces| ==> IsBitPiece(pieces[j], n, j, one, zero)
  }

  lemma BlocksAreCycle(d: seq<byte>, len: nat)
    requires d != []
    ensures IsCycle(Blocks(d, len), d, len)
  {
    forall i: nat | i < len { BlocksAt(d, len, i); }
  }

  lemma {:induction false} RepeatIsCycle(s: seq<byte>, times: nat)
    ensures IsCycle(Repeat(s, times), s, times * |s|)
  {
    if times > 0 {
      RepeatIsCycle(s, times - 1);
      var rest := Repeat(s, times - 1);
      assert times * |s| == |s| + (times - 1) * |s|;
      assert |s| == 0 ==> times * |s| == 0;
      forall i: nat | i < times * |s|
        ensures |s| > 0 && (s + rest)[i] == s[i % |s|]
      {
        if i < |s| { DivModUnique(i, |s|, 0, i); } else { ModMinus(i, |s|); }
      }
    }
  }

  lemma DivTwice(n: nat, p: nat)
    requires p > 0
    ensures n / 2 / p == n / (2 * p)
  {
    var q, r := n / 2 / p, n / 2 % p;
    assert n / 2 == p * q + r;
    assert n == 2 * p * q + (2 * r + n % 2) by { assert 2 * (p * q) == 2 * p * q; }
    DivModUnique(n, 2 * p, q, 2 * r + n % 2);
  }

  lemma {:induction false} BitFeedIsPieces(n: nat, one: seq<byte>, zero: seq<byte>) returns (pieces: seq<seq<byte>>)
    ensures AreBitPieces(pieces, n, one, zero) && BitFeed(LengthBits(n), one, zero) == Concat(pieces)
  {
    pieces := [];
    if n > 0 {
      var rest := BitFeedIsPieces(n / 2, one, zero);
      var first := if n % 2 == 1 then one else zero;
      pieces := [first] + rest;
      assert pieces[1..] == rest && LengthBits(n)[1..] == LengthBits(n / 2);
      MorePieces(rest, n, one, zero);
    }
  }

  lemma MoreDigits(n: nat, count: nat)
    requires n > 0 && HasDigits(n / 2, count)
    ensures HasDigits(n, count + 1)
  {
    if count > 0 { assert Power2(count) == 2 * Power2(count - 1); }
    assert Power2(count + 1) == 2 * Power2(count);
  }

  lemma NextBit(piece: seq<byte>, n: nat, j: nat, one: seq<byte>, zero: seq<byte>)
    requires IsBitPiece(piece, n / 2, j, one, zero)
    ensures IsBitPiece(piece, n, j + 1, one, zero)
  {
    DivTwice(n, Power2(j));
  }

  lemma MorePieces(rest: seq<seq<byte>>, n: nat, one: seq<byte>, zero: seq<byte>)
    requires n > 0 && AreBitPieces(rest, n / 2, one, zero)
    ensures AreBitPieces([if n % 2 == 1 then one else zero] + rest, n, one, zero)
  {
    var pieces := [if n % 2 == 1 then one else zero] + rest;
    MoreDigits(n, |rest|);
    forall j: nat | j < |pieces|
      ensures IsBitPiece(pieces[j], n, j, one, zero)
    {
      if j > 0 { NextBit(rest[j - 1], n, j - 1, one, zero); }
    }
  }

  // ---------- rounds ----------

  /** `n` rounds: each hashes the digest of the one before it, with the key first in odd rounds
      and last in even ones, the salt unless the number is a multiple of 3, and the key once
      more unless it is a multiple of 7. */
  predicate AreRounds(h: HashFn, digests: seq<seq<byte>>, n: nat, first: seq<byte>, salt: seq<byte>, key: seq<byte>) {
    && |digests| == n + 1 && digests[0] == first
    && forall k: nat {:trigger digests[k]} :: k < n ==>
         digests[k + 1] == h((if k % 2 == 1 then key else digests[k]) + (if k % 3 != 0 then salt else [])
                             + (if k % 7 != 0 then key else []) + (if k % 2 == 1 then digests[k] else key))
  }

  lemma {:induction false} RoundsExactly(h: HashFn, n: nat, first: seq<byte>, salt: seq<byte>, key: seq<byte>)
    returns (digests: seq<seq<byte>>)
    ensures AreRounds(h, digests, n, first, salt, key) && digests[n] == Stretch(h, n, first, salt, key)
  {
    if n == 0 {
      digests := [first];
    } else {
      digests := RoundsExactly(h, n - 1, first, salt, key);
      OneMoreRound(h, digests, n - 1, first, salt, key);
      digests := digests + [Stretch(h, n, first, salt, key)];
    }
  }

  lemma OneMoreRound(h: HashFn, digests: seq<seq<byte>>, n: nat, first: seq<byte>, salt: seq<byte>, key: seq<byte>)
    requires AreRounds(h, digests, n, first, salt, key) && digests[n] == Stretch(h, n, first, salt, key)
    ensures AreRounds(h, digests + [Stretch(h, n + 1, first, salt, key)], n + 1, first, salt, key)
  {
    var more := digests + [Stretch(h, n + 1, first, salt, key)];
    assert more[n] == digests[n];
    assert forall k :: 0 <= k <= n ==> more[k] == digests[k];
  }

  // ---------- SHA ----------

  /** Digest A: the key, the salt, as many bytes of digest B as the key has, and one piece for
      each binary digit of that number: digest B for a 1, and the key for a 0. Digest B is
      that of the key, the salt and the key. */
  lemma DigestAExactly(h: HashFn, size: nat, key: seq<byte>, salt: seq<byte>)
    returns (blocks: seq<byte>, pieces: seq<seq<byte>>)
    requires IsHash(h, size) && size > 0
    ensures var b := h(key + salt + key);
            && IsCycle(blocks, b, |key|) && AreBitPieces(pieces, |key|, b, key)
            && ShaCrypt.DigestA(h, size, key, salt) == h(key + salt + blocks + Concat(pieces))
  {
    var b := h(key + salt + key);
    assert |b| == size;
    BlocksAreCycle(b, |key|);
    blocks := Blocks(b, |key|);
    pieces := BitFeedIsPieces(|key|, b, key);
  }

  /** Sequence P: as many bytes as the key has of the digest of that many copies of the key. */
  lemma SequencePExactly(h: HashFn, size: nat, key: seq<byte>) returns (copies: seq<byte>)
    requires IsHash(h, size) && size > 0
    ensures IsCycle(copies, key, |key| * |key|) && IsCycle(ShaCrypt.SequenceP(h, size, key), h(copies), |key|)
  {
    RepeatIsCycle(key, |key|);
    copies := Repeat(key, |key|);
    assert |h(copies)| == size;
    BlocksAreCycle(h(copies), |key|);
  }

  /** Sequence S: as many bytes as the salt has of the digest of 16 copies of the salt and one
      more for each unit of the first byte of digest A. */
  lemma SequenceSExactly(h: HashFn, size: nat, a: seq<byte>, salt: seq<byte>) returns (copies: seq<byte>)
    requires IsHash(h, size) && size > 0 && |a| == size
    ensures var first: int := a[0];
            && IsCycle(copies, salt, (16 + first) * |salt|)
            && IsCycle(ShaCrypt.SequenceS(h, size, a, salt), h(copies), |salt|)
  {
    RepeatIsCycle(salt, ShaCrypt.SaltRepeats(a));
    copies := Repeat(salt, ShaCrypt.SaltRepeats(a));
    assert |h(copies)| == size;
    BlocksAreCycle(h(copies), |salt|);
  }

  /** Everything that goes into a SHA digest. */
  datatype ShaMessages = ShaMessages(blocks: seq<byte>, pieces: seq<seq<byte>>, keyCopies: seq<byte>,
                                     saltCopies: seq<byte>, p: seq<byte>, s: seq<byte>, digests: seq<seq<byte>>)

  /** The message of digest A. */
  function MessageA(key: seq<byte>, salt: seq<byte>, m: ShaMessages): seq<byte> {
    key + salt + m.blocks + Concat(m.pieces)
  }

  predicate IsMessageA(h: HashFn, key: seq<byte>, salt: seq<byte>, m: ShaMessages) {
    var b := h(key + salt + key);
    IsCycle(m.blocks, b, |key|) && AreBitPieces(m.pieces, |key|, b, key)
  }

  predicate AreSequences(h: HashFn, key: seq<byte>, salt: seq<byte>, a: seq<byte>, m: ShaMessages) {
    && IsCycle(m.keyCopies, key, |key| * |key|) && IsCycle(m.p, h(m.keyCopies), |key|)
    && |a| > 0 && (var first: int := a[0]; IsCycle(m.saltCopies, salt, (16 + first) * |salt|))
    && IsCycle(m.s, h(m.saltCopies), |salt|)
  }

  predicate AreShaMessages(h: HashFn, key: seq<byte>, salt: seq<byte>, rounds: nat, m: ShaMessages) {
    var a := h(MessageA(key, salt, m));
    IsMessageA(h, key, salt, m) && AreSequences(h, key, salt, a, m) && AreRounds(h, m.digests, rounds, a, m.s, m.p)
  }

  /** The digest of the password is the last of these, for every number of rounds. */
  lemma {:induction false} ShaDigestExactly(h: HashFn, size: nat, key: seq<byte>, salt: seq<byte>, rounds: nat)
    returns (m: ShaMessages)
    requires IsHash(h, size) && size > 0
    ensures AreShaMessages(h, key, salt, rounds, m)
    ensures ShaCrypt.ShaDigest(h, size, key, salt, rounds) == m.digests[rounds]
  {
    var blocks, pieces := DigestAExactly(h, size, key, salt);
    var a := ShaCrypt.DigestA(h, size, key, salt);
    var keyCopies := SequencePExactly(h, size, key);
    var saltCopies := SequenceSExactly(h, size, a, salt);
    var p, s := ShaCrypt.SequenceP(h, size, key), ShaCrypt.SequenceS(h, size, a, salt);
    var digests := RoundsExactly(h, rounds, a, s, p);
    m := ShaMessages(blocks, pieces, keyCopies, saltCopies, p, s, digests);
    assert MessageA(key, salt, m) == key + salt + blocks + Concat(pieces);
  }

  // ---------- MD5 ----------

  datatype Md5Messages = Md5Messages(blocks: seq<byte>, pieces: seq<seq<byte>>, digests: seq<seq<byte>>)

  /** The key, the magic string between dollar signs if there is one, the salt, as many bytes
      of digest B as the key has, and for each binary digit of that number a zero byte for a 1
      and the first byte of the key for a 0; then a thousand rounds with salt and key. */
  predicate AreMd5Messages(md5: HashFn, key: seq<byte>, magic: seq<byte>, salt: seq<byte>, m: Md5Messages) {
    var b := md5(key + salt + key);
    var dollar := ['$' as int];
    && IsCycle(m.blocks, b, |key|) && AreBitPieces(m.pieces, |key|, [0], if key == [] then [] else [key[0]])
    && AreRounds(md5, m.digests, 1000,
                 md5(key + (if magic == [] then [] else dollar + magic + dollar) + salt + m.blocks + Concat(m.pieces)),
                 salt, key)
  }

  lemma Md5DigestExactly(md5: HashFn, key: seq<byte>, magic: seq<byte>, salt: seq<byte>) returns (m: Md5Messages)
    requires IsHash(md5, 16)
    ensures AreMd5Messages(md5, key, magic, salt, m) && Md5Crypt.Md5Digest(md5, key, magic, salt) == m.digests[1000]
  {
    var b := md5(key + salt + key);
    assert |b| == 16;
    BlocksAreCycle(b, |key|);
    var zero := Prefix(key, 1);
    assert zero == if key == [] then [] else [key[0]];
    var pieces := BitFeedIsPieces(|key|, [0], zero);
    var digests := RoundsExactly(md5, 1000, Md5Crypt.Md5DigestA(md5, key, magic, salt), salt, key);
    m := Md5Messages(Blocks(b, |key|), pieces, digests);
  }
}

/** The printable encoding of a digest: 24-bit words in base 64, lowest digit first. */
module CryptEncoding {
  import opened Arith
  import opened Bytes

  const COV_2CHAR: seq<seq<byte>> := [
    [0x2E, 0x2F, 0x30, 0x31, 0x32, 0x33, 0x34, 0x35],
    [0x36, 0x37, 0x38, 0x39, 0x41, 0x42, 0x43, 0x44],
    [0x45, 0x46, 0x47, 0x48, 0x49, 0x4A, 0x4B, 0x4C],
    [0x4D, 0x4E, 0x4F, 0x50, 0x51, 0x52, 0x53, 0x54],
    [0x55, 0x56, 0x57, 0x58, 0x59, 0x5A, 0x61, 0x62],
    [0x63, 0x64, 0x65, 0x66, 0x67, 0x68, 0x69, 0x6A],
    [0x6B, 0x6C, 0x6D, 0x6E, 0x6F, 0x70, 0x71, 0x72],
    [0x73, 0x74, 0x75, 0x76, 0x77, 0x78, 0x79, 0x7A]
  ]

  /** Entry `v` of the table, which is laid out in rows of eight. */
  function TableEntry(v: nat): byte
    requires v < 64
  {
    COV_2CHAR[v / 8][v % 8]
  }

  /** The base-64 digit `v`: './0-9A-Za-z' stand for 0 to 63. */
  function Digit(v: nat): byte
    requires v < 64
  {
    if v < 12 then 0x2E + v else if v < 38 then 0x41 + (v - 12) else 0x61 + (v - 38)
  }

  lemma TableHoldsDigits(v: nat)
    requires v < 64
    ensures TableEntry(v) == Digit(v)
  {
  }

  function DigitValue(c: byte): (v: nat)
    ensures v < 64
  {
    if 0x61 <= c <= 0x7A then c - 0x61 + 38
    else if 0x41 <= c <= 0x5A then c - 0x41 + 12
    else if 0x2E <= c <= 0x39 then c - 0x2E
    else 0
  }

  predicate IsDigit(c: byte) {
    0x2E <= c <= 0x39 || 0x41 <= c <= 0x5A || 0x61 <= c <= 0x7A
  }

  // ---------- one word ----------

  function Word(b2: byte, b1: byte, b0: byte): nat { b2 * 65536 + b1 * 256 + b0 }

  /** The byte of a word in slot 0 (highest), 1 or 2. */
  function Slot(w: nat, s: nat): byte {
    if s == 0 then w / 65536 % 256 else if s == 1 then w / 256 % 256 else w % 256
  }

  lemma SlotOfWord(b2: byte, b1: byte, b0: byte)
    ensures var w := Word(b2, b1, b0);
            Slot(w, 0) == b2 && Slot(w, 1) == b1 && Slot(w, 2) == b0
  {
    var w := Word(b2, b1, b0);
    DivModUnique(w, 256, b2 * 256 + b1, b0);
    DivModUnique(w / 256, 256, b2, b1);
    DivModUnique(w, 65536, b2, b1 * 256 + b0);
  }

  /** The `n` lowest base-64 digits of `w`, lowest first. */
  function EncodeWord(w: nat, n: nat): (t: seq<byte>)
    ensures |t| == n
  {
    if n == 0 then [] else
      [Digit(w % 64)] + EncodeWord(w / 64, n - 1)
  }

  /** The word that the `n` characters from place `i` on denote. */
  function WordAt(t: seq<byte>, i: nat, n: nat): nat
    requires i + n <= |t|
    decreases n
  {
    if n == 0 then 0 else DigitValue(t[i]) + 64 * WordAt(t, i + 1, n - 1)
  }

  function Pow64(n: nat): nat { if n == 0 then 1 else 64 * Pow64(n - 1) }

  lemma {:induction false} WordIsRead(t: seq<byte>, i: nat, w: nat, n: nat)
    requires i + n <= |t| && w < Pow64(n)
    requires forall j :: 0 <= j < n ==> t[i + j] == EncodeWord(w, n)[j]
    ensures WordAt(t, i, n) == w
    decreases n
  {
    if n > 0 {
      assert t[i] == EncodeWord(w, n)[0];
      var rest := EncodeWord(w / 64, n - 1);
      forall j | 0 <= j < n - 1
        ensures t[i + 1 + j] == rest[j]
      {
        assert t[i + (1 + j)] == EncodeWord(w, n)[1 + j];
      }
      WordIsRead(t, i + 1, w / 64, n - 1);
    }
  }

  lemma PowersOf64()
    ensures Pow64(2) == 4096 && Pow64(3) == 262144 && Pow64(4) == 16777216
  {
  }

  // ---------- a run of words ----------

  /** Four characters for each word. */
  function EncodeWords(ws: seq<nat>): (t: seq<byte>)
    ensures |t| == 4 * |ws|
  {
    if ws == [] then [] else EncodeWords(ws[..|ws| - 1]) + EncodeWord(ws[|ws| - 1], 4)
  }

  lemma {:induction false} EncodeWordsAt(ws: seq<nat>, k: nat, j: nat)
    requires k < |ws| && j < 4
    ensures EncodeWords(ws)[4 * k + j] == EncodeWord(ws[k], 4)[j]
  {
    if k < |ws| - 1 {
      EncodeWordsAt(ws[..|ws| - 1], k, j);
    }
  }

  lemma RunIsRead(ws: seq<nat>, tail: seq<byte>, k: nat)
    requires k < |ws| && ws[k] < 16777216
    ensures WordAt(EncodeWords(ws) + tail, 4 * k, 4) == ws[k]
  {
    PowersOf64();
    forall j: nat | j < 4 { EncodeWordsAt(ws, k, j); }
    WordIsRead(EncodeWords(ws) + tail, 4 * k, ws[k], 4);
  }

  /** Reading back a run of 24-bit words and a last word of `n` characters. */
  lemma DecodeRun(ws: seq<nat>, w: nat, n: nat)
    requires w < Pow64(n) && forall k :: 0 <= k < |ws| ==> ws[k] < 16777216
    ensures var t := EncodeWords(ws) + EncodeWord(w, n);
            && WordAt(t, 4 * |ws|, n) == w
            && forall k :: 0 <= k < |ws| ==> WordAt(t, 4 * k, 4) == ws[k]
  {
    var t := EncodeWords(ws) + EncodeWord(w, n);
    WordIsRead(t, 4 * |ws|, w, n);
    forall k | 0 <= k < |ws|
      ensures WordAt(t, 4 * k, 4) == ws[k]
    {
      RunIsRead(ws, EncodeWord(w, n), k);
    }
  }

  predicate AllDigits(t: seq<byte>) { forall i :: 0 <= i < |t| ==> IsDigit(t[i]) }

  lemma {:induction false} WordIsDigits(w: nat, n: nat)
    ensures AllDigits(EncodeWord(w, n))
  {
    if n > 0 { WordIsDigits(w / 64, n - 1); }
  }

  lemma {:induction false} RunIsDigits(ws: seq<nat>, w: nat, n: nat)
    ensures AllDigits(EncodeWords(ws) + EncodeWord(w, n))
  {
    WordIsDigits(w, n);
    if ws != [] {
      RunIsDigits(ws[..|ws| - 1], ws[|ws| - 1], 4);
    }
  }

  // ---------- byte orders (step 22 of SHA-crypt.txt, in closed form) ----------

  /** The byte in slot `s` of word `k`: the digest is read in three columns of ten, and
      the column that comes first moves on with every word. */
  function Index256(k: nat, s: nat): nat {
    var c := (s + k + k) % 3;
    k + if c == 0 then 0 else if c == 1 then 10 else 20
  }

  function Index512(k: nat, s: nat): nat {
    var c := (s + k) % 3;
    k + if c == 0 then 0 else if c == 1 then 21 else 42
  }

  /** Both orders are permutations: each byte has exactly one place, and is found there. */
  lemma OrderOf256IsPermutation(i: nat, k: nat, s: nat)
    requires i < 30 && k < 10 && s < 3
    ensures Index256(k, s) == i <==> k == i % 10 && s == (i / 10 + i % 10) % 3
  {
    DivModUnique(Index256(k, s), 10, (s + k + k) % 3, k);
    Shift3(s, k);
    Shift3(i / 10, k);
  }

  lemma OrderOf512IsPermutation(i: nat, k: nat, s: nat)
    requires i < 63 && k < 21 && s < 3
    ensures Index512(k, s) == i <==> k == i % 21 && s == (i / 21 + 2 * (i % 21)) % 3
  {
    DivModUnique(Index512(k, s), 21, (s + k) % 3, k);
    Shift3(s, k);
    Shift3(i / 21, k);
  }

  /** Modulo 3, adding `2k` and adding `k` undo each other. */
  lemma Shift3(c: nat, k: nat)
    requires c < 3
    ensures ((c + k) % 3 + 2 * k) % 3 == c
    ensures ((c + k + k) % 3 + k) % 3 == c
  {
    DivModUnique((c + k) % 3 + 2 * k, 3, k - (c + k) / 3, c);
    DivModUnique((c + k + k) % 3 + k, 3, k - (c + k + k) / 3, c);
  }

  function Word256(buf: seq<byte>, k: nat): nat
    requires |buf| == 32 && k < 10
  {
    Word(buf[Index256(k, 0)], buf[Index256(k, 1)], buf[Index256(k, 2)])
  }

  function Word512(buf: seq<byte>, k: nat): nat
    requires |buf| == 64 && k < 21
  {
    Word(buf[Index512(k, 0)], buf[Index512(k, 1)], buf[Index512(k, 2)])
  }

  function Words256(buf: seq<byte>): (ws: seq<nat>)
    requires |buf| == 32
    ensures |ws| == 10
  {
    seq(10, k requires 0 <= k < 10 => Word256(buf, k))
  }

  function Words512(buf: seq<byte>): (ws: seq<nat>)
    requires |buf| == 64
    ensures |ws| == 21
  {
    seq(21, k requires 0 <= k < 21 => Word512(buf, k))
  }

  function Encode256(buf: seq<byte>): (t: seq<byte>)
    requires |buf| == 32
    ensures |t| == 43
  {
    EncodeWords(Words256(buf)) + EncodeWord(Word(0, buf[31], buf[30]), 3)
  }

  function Encode512(buf: seq<byte>): (t: seq<byte>)
    requires |buf| == 64
    ensures |t| == 86
  {
    EncodeWords(Words512(buf)) + EncodeWord(Word(0, 0, buf[63]), 2)
  }

  function Decode256(t: seq<byte>): seq<byte>
    requires |t| == 43
  {
    seq(32, i requires 0 <= i < 32 =>
      if i < 30 then Slot(WordAt(t, 4 * (i % 10), 4), (i / 10 + i % 10) % 3)
      else Slot(WordAt(t, 40, 3), if i == 31 then 1 else 2))
  }

  function Decode512(t: seq<byte>): seq<byte>
    requires |t| == 86
  {
    seq(64, i requires 0 <= i < 64 =>
      if i < 63 then Slot(WordAt(t, 4 * (i % 21), 4), (i / 21 + 2 * (i % 21)) % 3)
      else Slot(WordAt(t, 84, 2), 2))
  }

  lemma SlotOf256(buf: seq<byte>, i: nat)
    requires |buf| == 32 && i < 30
    ensures Slot(Words256(buf)[i % 10], (i / 10 + i % 10) % 3) == buf[i]
  {
    var k, s := i % 10, (i / 10 + i % 10) % 3;
    SlotOfWord(buf[Index256(k, 0)], buf[Index256(k, 1)], buf[Index256(k, 2)]);
    OrderOf256IsPermutation(i, k, s);
  }

  lemma SlotOf512(buf: seq<byte>, i: nat)
    requires |buf| == 64 && i < 63
    ensures Slot(Words512(buf)[i % 21], (i / 21 + 2 * (i % 21)) % 3) == buf[i]
  {
    var k, s := i % 21, (i / 21 + 2 * (i % 21)) % 3;
    SlotOfWord(buf[Index512(k, 0)], buf[Index512(k, 1)], buf[Index512(k, 2)]);
    OrderOf512IsPermutation(i, k, s);
  }

  lemma DecodeFromWords256(t: seq<byte>, ws: seq<nat>, buf: seq<byte>)
    requires |t| == 43 && |ws| == 10 && |buf| == 32
    requires forall k :: 0 <= k < 10 ==> WordAt(t, 4 * k, 4) == ws[k]
    requires forall i :: 0 <= i < 30 ==> Slot(ws[i % 10], (i / 10 + i % 10) % 3) == buf[i]
    requires Slot(WordAt(t, 40, 3), 2) == buf[30] && Slot(WordAt(t, 40, 3), 1) == buf[31]
    ensures Decode256(t) == buf
  {
  }

  lemma DecodeFromWords512(t: seq<byte>, ws: seq<nat>, buf: seq<byte>)
    requires |t| == 86 && |ws| == 21 && |buf| == 64
    requires forall k :: 0 <= k < 21 ==> WordAt(t, 4 * k, 4) == ws[k]
    requires forall i :: 0 <= i < 63 ==> Slot(ws[i % 21], (i / 21 + 2 * (i % 21)) % 3) == buf[i]
    requires Slot(WordAt(t, 84, 2), 2) == buf[63]
    ensures Decode512(t) == buf
  {
  }

  /** No two digests share an encoding: every digest is recovered from its text. */
  lemma Lossless256(buf: seq<byte>)
    requires |buf| == 32
    ensures Decode256(Encode256(buf)) == buf
  {
    var w := Word(0, buf[31], buf[30]);
    PowersOf64();
    DecodeRun(Words256(buf), w, 3);
    SlotOfWord(0, buf[31], buf[30]);
    forall i: nat | i < 30 { SlotOf256(buf, i); }
    DecodeFromWords256(Encode256(buf), Words256(buf), buf);
  }

  lemma Lossless512(buf: seq<byte>)
    requires |buf| == 64
    ensures Decode512(Encode512(buf)) == buf
  {
    var w := Word(0, 0, buf[63]);
    PowersOf64();
    DecodeRun(Words512(buf), w, 2);
    SlotOfWord(0, 0, buf[63]);
    forall i: nat | i < 63 { SlotOf512(buf, i); }
    DecodeFromWords512(Encode512(buf), Words512(buf), buf);
  }

  // ---------- MD5 ----------

  /** The byte at place `d` of the permuted MD5 digest: a walk of step 6 modulo 17, then
      the two bytes the walk does not reach. */
  function IndexMd5(d: nat): nat { if d < 14 then 6 * d % 17 else if d == 14 then 5 else 11 }

  /** Where the walk puts byte `i`: 3 is the inverse of 6 modulo 17. */
  function PlaceMd5(i: nat): nat { if i == 5 then 14 else if i == 11 then 15 else 3 * i % 17 }

  lemma OrderOfMd5IsPermutation(i: nat, d: nat)
    requires i < 16 && d < 16
    ensures IndexMd5(d) < 16 && PlaceMd5(i) < 16
    ensures IndexMd5(d) == i <==> d == PlaceMd5(i)
  {
  }

  function PermuteMd5(buf: seq<byte>): (p: seq<byte>)
    requires |buf| == 16
    ensures |p| == 16
  {
    seq(16, d requires 0 <= d < 16 => OrderOfMd5IsPermutation(0, d); buf[IndexMd5(d)])
  }

  function WordsMd5(perm: seq<byte>): (ws: seq<nat>)
    requires |perm| == 16
    ensures |ws| == 5
  {
    seq(5, k requires 0 <= k < 5 => Word(perm[3 * k], perm[3 * k + 1], perm[3 * k + 2]))
  }

  function EncodeMd5(buf: seq<byte>): (t: seq<byte>)
    requires |buf| == 16
    ensures |t| == 22
  {
    var perm := PermuteMd5(buf);
    EncodeWords(WordsMd5(perm)) + EncodeWord(Word(0, 0, perm[15]), 2)
  }

  /** The byte that stands at place `d` of the permuted digest. */
  function DecodedAt(t: seq<byte>, d: nat): byte
    requires |t| == 22 && d < 16
  {
    if d < 15 then Slot(WordAt(t, 4 * (d / 3), 4), d % 3) else Slot(WordAt(t, 20, 2), 2)
  }

  function DecodeMd5(t: seq<byte>): seq<byte>
    requires |t| == 22
  {
    seq(16, i requires 0 <= i < 16 => DecodedAt(t, PlaceMd5(i)))
  }

  lemma WordsMd5At(perm: seq<byte>, d: nat)
    requires |perm| == 16 && d < 15
    ensures Slot(WordsMd5(perm)[d / 3], d % 3) == perm[d]
  {
    var k := d / 3;
    SlotOfWord(perm[3 * k], perm[3 * k + 1], perm[3 * k + 2]);
  }

  lemma DecodedByteMd5(t: seq<byte>, ws: seq<nat>, perm: seq<byte>, d: nat)
    requires |t| == 22 && |ws| == 5 && |perm| == 16 && d < 16
    requires forall k :: 0 <= k < 5 ==> WordAt(t, 4 * k, 4) == ws[k]
    requires forall d :: 0 <= d < 15 ==> Slot(ws[d / 3], d % 3) == perm[d]
    requires Slot(WordAt(t, 20, 2), 2) == perm[15]
    ensures DecodedAt(t, d) == perm[d]
  {
    if d < 15 {
      var k := d / 3;
      assert WordAt(t, 4 * k, 4) == ws[k];
    }
  }

  lemma PermutedAt(buf: seq<byte>, i: nat)
    requires |buf| == 16 && i < 16
    ensures PlaceMd5(i) < 16 && PermuteMd5(buf)[PlaceMd5(i)] == buf[i]
  {
    OrderOfMd5IsPermutation(i, PlaceMd5(i));
  }

  lemma DecodeFromWordsMd5(t: seq<byte>, ws: seq<nat>, perm: seq<byte>, buf: seq<byte>)
    requires |t| == 22 && |ws| == 5 && |perm| == 16 && |buf| == 16
    requires forall k :: 0 <= k < 5 ==> WordAt(t, 4 * k, 4) == ws[k]
    requires forall d :: 0 <= d < 15 ==> Slot(ws[d / 3], d % 3) == perm[d]
    requires Slot(WordAt(t, 20, 2), 2) == perm[15]
    requires forall i: nat {:trigger PlaceMd5(i)} :: i < 16 ==> PlaceMd5(i) < 16 && perm[PlaceMd5(i)] == buf[i]
    ensures DecodeMd5(t) == buf
  {
    forall i: nat | i < 16
      ensures DecodeMd5(t)[i] == buf[i]
    {
      DecodedByteMd5(t, ws, perm, PlaceMd5(i));
    }
  }

  lemma LosslessMd5(buf: seq<byte>)
    requires |buf| == 16
    ensures DecodeMd5(EncodeMd5(buf)) == buf
  {
    var perm := PermuteMd5(buf);
    PowersOf64();
    DecodeRun(WordsMd5(perm), Word(0, 0, perm[15]), 2);
    SlotOfWord(0, 0, perm[15]);
    forall d: nat | d < 15 { WordsMd5At(perm, d); }
    forall i: nat | i < 16 { PermutedAt(buf, i); }
    DecodeFromWordsMd5(EncodeMd5(buf), WordsMd5(perm), perm, buf);
  }
}

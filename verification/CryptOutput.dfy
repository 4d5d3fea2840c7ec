/** Writing an encoded digest into the output buffer, one character at a time. */
module CryptOutput {
  import opened Bytes
  import opened CryptEncoding

  /** `cov_2char[v]` */
  method Cov2Char(v: nat) returns (c: byte)
    requires v < 64
    ensures c == Digit(v)
  {
    c := COV_2CHAR[v / 8][v % 8];
    TableHoldsDigits(v);
  }

  lemma EncodeWordStep(before: seq<byte>, w: nat, i: nat)
    requires i > 0
    ensures before + EncodeWord(w, i) == before + [Digit(w % 64)] + EncodeWord(w / 64, i - 1)
  {
    assert EncodeWord(w, i) == [Digit(w % 64)] + EncodeWord(w / 64, i - 1);
  }

  /** The `b64_from_24bit` macro; `cp` is returned advanced. */
  method B64From24Bit(out: array<byte>, cp: nat, b2: byte, b1: byte, b0: byte, n: nat) returns (next: nat)
    requires cp + n < out.Length
    modifies out
    ensures next == cp + n && out[..next] == old(out[..cp]) + EncodeWord(Word(b2, b1, b0), n)
  {
    next := EmitDigits(out, cp, Word(b2, b1, b0), n);
  }

  /** Its loop over the six-bit digits. */
  method EmitDigits(out: array<byte>, cp: nat, word: nat, n: nat) returns (next: nat)
    requires cp + n < out.Length
    modifies out
    ensures next == cp + n && out[..next] == old(out[..cp]) + EncodeWord(word, n)
  {
    var w: nat, i := word, n;
    next := cp;
    ghost var goal := old(out[..cp]) + EncodeWord(word, n);
    while i > 0
      invariant 0 <= i && next + i == cp + n
      invariant out[..next] + EncodeWord(w, i) == goal
    {
      EncodeWordStep(out[..next], w, i);
      ghost var before := out[..next];
      var c := Cov2Char(w % 64);
      out[next] := c;
      assert out[..next + 1] == before + [c];
      next := next + 1;
      w := w / 64;
      i := i - 1;
    }
    assert out[..next] + EncodeWord(w, 0) == out[..next];
  }

  /** `head` and the first `k` parts. */
  ghost function Upto(head: seq<byte>, parts: seq<seq<byte>>, k: nat): seq<byte>
    requires k <= |parts|
  {
    if k == 0 then head else Upto(head, parts, k - 1) + parts[k - 1]
  }

  lemma {:induction false} UptoIsRun(head: seq<byte>, parts: seq<seq<byte>>, ws: seq<nat>, k: nat)
    requires k <= |ws| == |parts|
    requires forall i :: 0 <= i < |ws| ==> parts[i] == EncodeWord(ws[i], 4)
    ensures Upto(head, parts, k) == head + EncodeWords(ws[..k])
  {
    if k > 0 {
      UptoIsRun(head, parts, ws, k - 1);
      assert ws[..k][..k - 1] == ws[..k - 1];
    }
  }

  lemma Together(a: seq<byte>, b: seq<byte>, c: seq<byte>)
    ensures a + b + c == a + (b + c)
  {
  }

  /** The text of each word. */
  ghost function Parts256(buf: seq<byte>): (parts: seq<seq<byte>>)
    requires |buf| == 32
    ensures |parts| == 10
  {
    seq(10, k requires 0 <= k < 10 => EncodeWord(Word256(buf, k), 4))
  }

  /** One line of the SHA-256 table: word `k`, made of the bytes at `i2`, `i1` and `i0`. */
  method Emit256(out: array<byte>, cp: nat, ghost head: seq<byte>, ghost parts: seq<seq<byte>>, ghost k: nat,
                 buf: seq<byte>, i2: nat, i1: nat, i0: nat) returns (next: nat)
    requires |buf| == 32 && parts == Parts256(buf) && cp + 4 < out.Length && k < 10
    requires i2 == Index256(k, 0) && i1 == Index256(k, 1) && i0 == Index256(k, 2)
    requires out[..cp] == Upto(head, parts, k)
    modifies out
    ensures next == cp + 4 && out[..next] == Upto(head, parts, k + 1)
  {
    next := B64From24Bit(out, cp, buf[i2], buf[i1], buf[i0], 4);
  }

  method EmitLines256From0(out: array<byte>, start: nat, ghost head: seq<byte>, ghost parts: seq<seq<byte>>,
                      buf: seq<byte>) returns (cp: nat)
    requires start + 20 < out.Length && |buf| == 32 && parts == Parts256(buf)
    requires out[..start] == Upto(head, parts, 0)
    modifies out
    ensures cp == start + 20 && out[..cp] == Upto(head, parts, 5)
  {
    cp := Emit256(out, start, head, parts, 0, buf, 0, 10, 20);
    cp := Emit256(out, cp, head, parts, 1, buf, 21, 1, 11);
    cp := Emit256(out, cp, head, parts, 2, buf, 12, 22, 2);
    cp := Emit256(out, cp, head, parts, 3, buf, 3, 13, 23);
    cp := Emit256(out, cp, head, parts, 4, buf, 24, 4, 14);
  }

  method EmitLines256From5(out: array<byte>, start: nat, ghost head: seq<byte>, ghost parts: seq<seq<byte>>,
                      buf: seq<byte>) returns (cp: nat)
    requires start + 20 < out.Length && |buf| == 32 && parts == Parts256(buf)
    requires out[..start] == Upto(head, parts, 5)
    modifies out
    ensures cp == start + 20 && out[..cp] == Upto(head, parts, 10)
  {
    cp := Emit256(out, start, head, parts, 5, buf, 15, 25, 5);
    cp := Emit256(out, cp, head, parts, 6, buf, 6, 16, 26);
    cp := Emit256(out, cp, head, parts, 7, buf, 27, 7, 17);
    cp := Emit256(out, cp, head, parts, 8, buf, 18, 28, 8);
    cp := Emit256(out, cp, head, parts, 9, buf, 9, 19, 29);
  }

  lemma Upto256IsEncoding(head: seq<byte>, buf: seq<byte>)
    requires |buf| == 32
    ensures Upto(head, Parts256(buf), 10) + EncodeWord(Word(0, buf[31], buf[30]), 3) == head + Encode256(buf)
  {
    UptoIsRun(head, Parts256(buf), Words256(buf), 10);
    var ws := Words256(buf);
    assert ws[..10] == ws;
    Together(head, EncodeWords(ws), EncodeWord(Word(0, buf[31], buf[30]), 3));
  }

  method EmitSha256(out: array<byte>, start: nat, buf: seq<byte>) returns (cp: nat)
    requires start + 43 < out.Length && |buf| == 32
    modifies out
    ensures cp == start + 43 && out[..cp] == old(out[..start]) + Encode256(buf)
  {
    ghost var head := out[..start];
    ghost var parts := Parts256(buf);
    cp := EmitLines256From0(out, start, head, parts, buf);
    cp := EmitLines256From5(out, cp, head, parts, buf);
    cp := B64From24Bit(out, cp, 0, buf[31], buf[30], 3);
    Upto256IsEncoding(head, buf);
  }

  /** The text of each word. */
  ghost function Parts512(buf: seq<byte>): (parts: seq<seq<byte>>)
    requires |buf| == 64
    ensures |parts| == 21
  {
    seq(21, k requires 0 <= k < 21 => EncodeWord(Word512(buf, k), 4))
  }

  /** One line of the SHA-512 table: word `k`, made of the bytes at `i2`, `i1` and `i0`. */
  method Emit512(out: array<byte>, cp: nat, ghost head: seq<byte>, ghost parts: seq<seq<byte>>, ghost k: nat,
                 buf: seq<byte>, i2: nat, i1: nat, i0: nat) returns (next: nat)
    requires |buf| == 64 && parts == Parts512(buf) && cp + 4 < out.Length && k < 21
    requires i2 == Index512(k, 0) && i1 == Index512(k, 1) && i0 == Index512(k, 2)
    requires out[..cp] == Upto(head, parts, k)
    modifies out
    ensures next == cp + 4 && out[..next] == Upto(head, parts, k + 1)
  {
    next := B64From24Bit(out, cp, buf[i2], buf[i1], buf[i0], 4);
  }

  method EmitLines512From0(out: array<byte>, start: nat, ghost head: seq<byte>, ghost parts: seq<seq<byte>>,
                      buf: seq<byte>) returns (cp: nat)
    requires start + 28 < out.Length && |buf| == 64 && parts == Parts512(buf)
    requires out[..start] == Upto(head, parts, 0)
    modifies out
    ensures cp == start + 28 && out[..cp] == Upto(head, parts, 7)
  {
    cp := Emit512(out, start, head, parts, 0, buf, 0, 21, 42);
    cp := Emit512(out, cp, head, parts, 1, buf, 22, 43, 1);
    cp := Emit512(out, cp, head, parts, 2, buf, 44, 2, 23);
    cp := Emit512(out, cp, head, parts, 3, buf, 3, 24, 45);
    cp := Emit512(out, cp, head, parts, 4, buf, 25, 46, 4);
    cp := Emit512(out, cp, head, parts, 5, buf, 47, 5, 26);
    cp := Emit512(out, cp, head, parts, 6, buf, 6, 27, 48);
  }

  method EmitLines512From7(out: array<byte>, start: nat, ghost head: seq<byte>, ghost parts: seq<seq<byte>>,
                      buf: seq<byte>) returns (cp: nat)
    requires start + 28 < out.Length && |buf| == 64 && parts == Parts512(buf)
    requires out[..start] == Upto(head, parts, 7)
    modifies out
    ensures cp == start + 28 && out[..cp] == Upto(head, parts, 14)
  {
    cp := Emit512(out, start, head, parts, 7, buf, 28, 49, 7);
    cp := Emit512(out, cp, head, parts, 8, buf, 50, 8, 29);
    cp := Emit512(out, cp, head, parts, 9, buf, 9, 30, 51);
    cp := Emit512(out, cp, head, parts, 10, buf, 31, 52, 10);
    cp := Emit512(out, cp, head, parts, 11, buf, 53, 11, 32);
    cp := Emit512(out, cp, head, parts, 12, buf, 12, 33, 54);
    cp := Emit512(out, cp, head, parts, 13, buf, 34, 55, 13);
  }

  method EmitLines512From14(out: array<byte>, start: nat, ghost head: seq<byte>, ghost parts: seq<seq<byte>>,
                      buf: seq<byte>) returns (cp: nat)
    requires start + 28 < out.Length && |buf| == 64 && parts == Parts512(buf)
    requires out[..start] == Upto(head, parts, 14)
    modifies out
    ensures cp == start + 28 && out[..cp] == Upto(head, parts, 21)
  {
    cp := Emit512(out, start, head, parts, 14, buf, 56, 14, 35);
    cp := Emit512(out, cp, head, parts, 15, buf, 15, 36, 57);
    cp := Emit512(out, cp, head, parts, 16, buf, 37, 58, 16);
    cp := Emit512(out, cp, head, parts, 17, buf, 59, 17, 38);
    cp := Emit512(out, cp, head, parts, 18, buf, 18, 39, 60);
    cp := Emit512(out, cp, head, parts, 19, buf, 40, 61, 19);
    cp := Emit512(out, cp, head, parts, 20, buf, 62, 20, 41);
  }

  lemma Upto512IsEncoding(head: seq<byte>, buf: seq<byte>)
    requires |buf| == 64
    ensures Upto(head, Parts512(buf), 21) + EncodeWord(Word(0, 0, buf[63]), 2) == head + Encode512(buf)
  {
    UptoIsRun(head, Parts512(buf), Words512(buf), 21);
    var ws := Words512(buf);
    assert ws[..21] == ws;
    Together(head, EncodeWords(ws), EncodeWord(Word(0, 0, buf[63]), 2));
  }

  method EmitSha512(out: array<byte>, start: nat, buf: seq<byte>) returns (cp: nat)
    requires start + 86 < out.Length && |buf| == 64
    modifies out
    ensures cp == start + 86 && out[..cp] == old(out[..start]) + Encode512(buf)
  {
    ghost var head := out[..start];
    ghost var parts := Parts512(buf);
    cp := EmitLines512From0(out, start, head, parts, buf);
    cp := EmitLines512From7(out, cp, head, parts, buf);
    cp := EmitLines512From14(out, cp, head, parts, buf);
    cp := B64From24Bit(out, cp, 0, 0, buf[63], 2);
    Upto512IsEncoding(head, buf);
  }
}

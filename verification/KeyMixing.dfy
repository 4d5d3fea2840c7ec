/** The key-dependent feeds of the password algorithms: repeated blocks and length bits. */
module KeyMixing {
  import opened Arith
  import opened Bytes
  import opened Digest

  /** `len` bytes taken from `d`: the whole of it for each full block, then its first
      bytes (steps 9-10, 16 and 20 of SHA-crypt.txt). */
  function Blocks(d: seq<byte>, len: nat): (r: seq<byte>)
    requires d != []
    ensures |r| == len
  {
    if len < |d| then d[..len] else d + Blocks(d, len - |d|)
  }

  lemma {:induction false} BlocksAt(d: seq<byte>, len: nat, i: nat)
    requires i < len && d != []
    ensures Blocks(d, len)[i] == d[i % |d|]
  {
    if i >= |d| {
      BlocksAt(d, len - |d|, i - |d|);
      ModMinus(i, |d|);
    } else {
      DivModUnique(i, |d|, 0, i);
    }
  }

  /** The binary digits of `n`, lowest first, up to and including the highest 1. */
  function LengthBits(n: nat): seq<bool> {
    if n == 0 then [] else [n % 2 == 1] + LengthBits(n / 2)
  }

  function FromBits(bits: seq<bool>): nat {
    if bits == [] then 0 else (if bits[0] then 1 else 0) + 2 * FromBits(bits[1..])
  }

  /** `LengthBits` is the one digit sequence that denotes `n` and ends in a 1. */
  lemma {:induction false} LengthBitsExact(n: nat, bits: seq<bool>)
    ensures bits == LengthBits(n)
       <==> FromBits(bits) == n && (bits != [] ==> bits[|bits| - 1])
  {
    if n == 0 {
      if bits != [] && bits[|bits| - 1] { FromBitsPositive(bits); }
    } else if bits != [] {
      LengthBitsExact(n / 2, bits[1..]);
      assert bits == [bits[0]] + bits[1..];
      assert LengthBits(n)[1..] == LengthBits(n / 2);
      if |bits| == 1 { assert bits[1..] == []; }
    }
  }

  lemma {:induction false} FromBitsPositive(bits: seq<bool>)
    requires bits != [] && bits[|bits| - 1]
    ensures FromBits(bits) > 0
  {
    if |bits| > 1 { FromBitsPositive(bits[1..]); }
  }

  /** One item for every binary digit. */
  function BitFeed(bits: seq<bool>, one: seq<byte>, zero: seq<byte>): seq<byte> {
    if bits == [] then [] else (if bits[0] then one else zero) + BitFeed(bits[1..], one, zero)
  }

  /** `times` copies of `s`. */
  function Repeat(s: seq<byte>, times: nat): (r: seq<byte>) {
    if times == 0 then [] else s + Repeat(s, times - 1)
  }

  /** Digest B: key, salt and key again, through the second context. */
  method ComputeB(h: HashFn, md2: MdCtx, passwd: seq<byte>, salt: seq<byte>) returns (buf: seq<byte>)
    modifies md2
    ensures buf == h(passwd + salt + passwd)
  {
    md2.Init();
    md2.Update(passwd);
    md2.Update(salt);
    md2.Update(passwd);
    assert md2.fed == passwd + salt + passwd;
    buf := md2.Final(h);
  }

  /** `for (n = len; n > size; n -= size) update(buf, size); update(buf, n);` */
  method FeedBlocks(md: MdCtx, buf: seq<byte>, len: nat)
    requires md.live && buf != []
    modifies md
    ensures md.live && md.fed == old(md.fed) + Blocks(buf, len)
  {
    var n := len;
    while n > |buf|
      invariant 0 <= n && md.live
      invariant md.fed + Blocks(buf, n) == old(md.fed) + Blocks(buf, len)
    {
      md.Update(buf);
      n := n - |buf|;
    }
    assert Blocks(buf, n) == buf[..n] by {
      if n == |buf| { assert Blocks(buf, 0) == []; assert buf + [] == buf[..n]; }
    }
    md.Update(buf[..n]);
  }

  /** `while (n) { update((n & 1) ? one : zero); n >>= 1; }` */
  method FeedLengthBits(md: MdCtx, len: nat, one: seq<byte>, zero: seq<byte>)
    requires md.live
    modifies md
    ensures md.live && md.fed == old(md.fed) + BitFeed(LengthBits(len), one, zero)
  {
    var n := len;
    while n != 0
      invariant md.live
      invariant md.fed + BitFeed(LengthBits(n), one, zero) == old(md.fed) + BitFeed(LengthBits(len), one, zero)
    {
      assert LengthBits(n)[1..] == LengthBits(n / 2);
      md.Update(if n % 2 == 1 then one else zero);
      n := n / 2;
    }
  }

  /** `for (n = times; n > 0; n--) update(s);` */
  method FeedRepeated(md: MdCtx, s: seq<byte>, times: nat)
    requires md.live
    modifies md
    ensures md.live && md.fed == old(md.fed) + Repeat(s, times)
  {
    var n := times;
    while n > 0
      invariant md.live && md.fed + Repeat(s, n) == old(md.fed) + Repeat(s, times)
    {
      md.Update(s);
      n := n - 1;
    }
  }

  /** Fills `dst` with copies of `src`, the last one cut:
      `for (cp = dst, n = len; n > size; n -= size, cp += size) memcpy(cp, src, size);
       memcpy(cp, src, n);` */
  method FillBlocks(dst: array<byte>, src: seq<byte>)
    requires src != []
    modifies dst
    ensures dst[..] == Blocks(src, dst.Length)
  {
    var cp, n := 0, dst.Length;
    while n > |src|
      invariant 0 <= n && 0 <= cp && cp + n == dst.Length
      invariant dst[..cp] + Blocks(src, n) == Blocks(src, dst.Length)
    {
      ghost var done := dst[..cp];
      Memcpy(dst, cp, src);
      assert dst[..cp + |src|] == done + src;
      assert done + (src + Blocks(src, n - |src|)) == (done + src) + Blocks(src, n - |src|);
      n := n - |src|;
      cp := cp + |src|;
    }
    assert Blocks(src, n) == src[..n] by {
      if n == |src| { assert Blocks(src, 0) == []; assert src + [] == src[..n]; }
    }
    ghost var done := dst[..cp];
    Memcpy(dst, cp, src[..n]);
    assert dst[..] == done + src[..n];
  }
}

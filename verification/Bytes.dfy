/** Bytes, C strings and the fixed buffers that C code writes in place. */
module Bytes {

  type byte = x: int | 0 <= x < 256

  /** The contents of a C string, without its terminating NUL. */
  type CString = s: seq<byte> | 0 !in s witness []

  datatype Option<+T> = None | Some(value: T)

  /** What `strlen` and `%s` see of a buffer: everything before the first NUL. */
  ghost function Text(b: seq<byte>): (s: CString)
    requires 0 in b
    ensures |s| < |b| && s == b[..|s|] && b[|s|] == 0
  {
    FirstNul(b);
    var n: nat :| n < |b| && b[n] == 0 && 0 !in b[..n];
    b[..n]
  }

  lemma {:induction false} FirstNul(b: seq<byte>)
    requires 0 in b
    ensures exists n: nat :: n < |b| && b[n] == 0 && 0 !in b[..n]
  {
    if b[0] == 0 {
      assert b[..0] == [];
    } else {
      FirstNul(b[1..]);
      var n: nat :| n < |b[1..]| && b[1..][n] == 0 && 0 !in b[1..][..n];
      assert b[..n + 1] == [b[0]] + b[1..][..n];
    }
  }

  lemma TextUnique(b: seq<byte>, s: CString)
    requires |s| < |b| && s == b[..|s|] && b[|s|] == 0
    ensures Text(b) == s
  {
  }

  /** The string a buffer holds, as a value. */
  method ReadString(buf: array<byte>) returns (s: CString)
    requires 0 in buf[..]
    ensures s == Text(buf[..])
  {
    var n := Strlen(buf);
    s := buf[..n];
  }

  /** A text as bytes. */
  function Ascii(s: string): (r: CString)
    requires forall i :: 0 <= i < |s| ==> 1 <= s[i] as int < 256
    ensures |r| == |s|
  {
    var r := seq(|s|, i requires 0 <= i < |s| => s[i] as int);
    r
  }

  function Min(a: nat, b: nat): nat { if a <= b then a else b }

  /** The longest prefix of `s` that has at most `n` bytes. */
  function Prefix<T>(s: seq<T>, n: nat): seq<T> { s[..Min(|s|, n)] }

  /** Truncating, appending and truncating again is appending and truncating once. */
  lemma PrefixAppend<T>(s: seq<T>, t: seq<T>, n: nat)
    ensures Prefix(Prefix(s, n) + t, n) == Prefix(s + t, n)
  {
  }

  lemma PrefixCutsSecond<T>(s: seq<T>, t: seq<T>, n: nat)
    requires |s| <= n <= |s| + |t|
    ensures Prefix(s + t, n) == s + t[..n - |s|]
  {
  }

  method Strlen(buf: array<byte>) returns (n: nat)
    requires 0 in buf[..]
    ensures n == |Text(buf[..])| && n < buf.Length && buf[n] == 0
  {
    n := 0;
    while buf[n] != 0
      invariant n < buf.Length && 0 !in buf[..n] && 0 in buf[..]
      decreases buf.Length - n
    {
      assert buf[..n + 1] == buf[..n] + [buf[n]];
      n := n + 1;
    }
    TextUnique(buf[..], buf[..n]);
  }

  /** `memcpy(dst + off, src, |src|)`. */
  method Memcpy(dst: array<byte>, off: nat, src: seq<byte>)
    requires off + |src| <= dst.Length
    modifies dst
    ensures dst[..] == old(dst[..off]) + src + old(dst[off + |src|..])
  {
    forall i | 0 <= i < |src| { dst[off + i] := src[i]; }
  }

  /** Writes `src` and its NUL at `off`, cut so that at most `size - 1` bytes of it are
      stored: what `snprintf(buf + off, size, ...)` and `strlcpy` do once `size > 0`. */
  method StoreString(buf: array<byte>, off: nat, size: nat, src: CString)
    requires 0 < size && off + size == buf.Length
    modifies buf
    ensures buf[..off] == old(buf[..off])
    ensures var s := Prefix(src, size - 1);
            buf[..off + |s| + 1] == old(buf[..off]) + s + [0]
  {
    var s := Prefix(src, size - 1);
    Memcpy(buf, off, s + [0]);
  }

  /** Appends to the string a buffer holds, as `strlcat(buf, src, sizeof(buf))` and
      `snprintf(buf + strlen(buf), sizeof(buf) - strlen(buf), "%s", src)` do. */
  method Append(buf: array<byte>, src: CString)
    requires 0 in buf[..]
    modifies buf
    ensures 0 in buf[..]
    ensures Text(buf[..]) == Prefix(old(Text(buf[..])) + src, buf.Length - 1)
  {
    var n := Strlen(buf);
    ghost var was := Text(buf[..]);
    assert was == buf[..n];
    StoreString(buf, n, buf.Length - n, src);
    ghost var s := Prefix(src, buf.Length - n - 1);
    assert was + s == Prefix(was + src, buf.Length - 1);
    assert buf[..n + |s| + 1] == was + s + [0];
    assert buf[n + |s|] == 0 && was + s <= buf[..];
    TextUnique(buf[..], was + s);
  }

  /** `Append` when there is room for all of `src`. */
  method AppendAll(buf: array<byte>, src: CString)
    requires 0 in buf[..] && |Text(buf[..])| + |src| < buf.Length
    modifies buf
    ensures 0 in buf[..] && Text(buf[..]) == old(Text(buf[..])) + src
  {
    Append(buf, src);
  }
}

/** The stretching rounds shared by the MD5 and SHA password algorithms. */
module RoundSchedule {
  import opened Arith
  import opened Bytes
  import opened Digest

  /** What the number of a round decides (step 21 of SHA-crypt.txt): which of the key and
      the previous digest comes first, and whether salt and key are mixed in between. */
  datatype Layout = Layout(keyFirst: bool, withSalt: bool, withKey: bool)

  function LayoutOf(n: nat): Layout { Layout(n % 2 == 1, n % 3 != 0, n % 7 != 0) }

  /** The message one round hashes. */
  function Message(l: Layout, prev: seq<byte>, salt: seq<byte>, key: seq<byte>): seq<byte> {
    (if l.keyFirst then key else prev)
    + (if l.withSalt then salt else [])
    + (if l.withKey then key else [])
    + (if l.keyFirst then prev else key)
  }

  /** The digest after `n` rounds that start from `first`. */
  function Stretch(h: HashFn, n: nat, first: seq<byte>, salt: seq<byte>, key: seq<byte>): seq<byte> {
    if n == 0 then first
    else h(Message(LayoutOf(n - 1), Stretch(h, n - 1, first, salt, key), salt, key))
  }

  /** The same rounds when each looks its layout up in a table that is used cyclically. */
  function StretchByTable(h: HashFn, table: seq<Layout>, n: nat,
                          first: seq<byte>, salt: seq<byte>, key: seq<byte>): seq<byte>
    requires table != []
  {
    if n == 0 then first
    else
      var prev := StretchByTable(h, table, n - 1, first, salt, key);
      h(Message(table[(n - 1) % |table|], prev, salt, key))
  }

  /** The layouts of rounds 0 to 41. */
  function Table(): (t: seq<Layout>)
    ensures |t| == 42
  {
    seq(42, i requires 0 <= i < 42 => LayoutOf(i))
  }

  lemma LayoutPeriod(n: nat)
    ensures LayoutOf(n) == LayoutOf(n % 42)
  {
    var q, r := n / 42, n % 42;
    DivModUnique(n, 2, 21 * q + r / 2, r % 2);
    DivModUnique(n, 3, 14 * q + r / 3, r % 3);
    DivModUnique(n, 7, 6 * q + r / 7, r % 7);
  }

  /** The schedule has no shorter period than 42. */
  lemma PeriodIsLeast(p: nat)
    requires forall n: nat :: LayoutOf(n) == LayoutOf(n + p)
    ensures p % 42 == 0
  {
    assert LayoutOf(p) == LayoutOf(0 + p) == LayoutOf(0);
    var a, b, c := p / 2, p / 3, p / 7;
    assert p == 2 * a && p == 3 * b && p == 7 * c;
    DivModUnique(p, 42, a - b - c, 0);
  }

  /** A loop over a 42-entry table of layouts computes what the modulus tests compute. */
  lemma {:induction false} TableDrivenRounds(h: HashFn, n: nat, first: seq<byte>, salt: seq<byte>, key: seq<byte>)
    ensures StretchByTable(h, Table(), n, first, salt, key) == Stretch(h, n, first, salt, key)
  {
    if n > 0 {
      TableDrivenRounds(h, n - 1, first, salt, key);
      LayoutPeriod(n - 1);
      assert Table()[(n - 1) % 42] == LayoutOf(n - 1);
    }
  }

  lemma StretchSize(h: HashFn, size: nat, n: nat, first: seq<byte>, salt: seq<byte>, key: seq<byte>)
    requires IsHash(h, size) && |first| == size
    ensures |Stretch(h, n, first, salt, key)| == size
  {
  }

  /** The body of the round loop: one rehash of `buf` through the reused context. */
  method RunRound(h: HashFn, md: MdCtx, n: nat, buf: seq<byte>, salt: seq<byte>, key: seq<byte>)
    returns (digest: seq<byte>)
    modifies md
    ensures digest == h(Message(LayoutOf(n), buf, salt, key))
  {
    md.Init();
    md.Update(if n % 2 == 1 then key else buf);
    if n % 3 != 0 {
      md.Update(salt);
    }
    if n % 7 != 0 {
      md.Update(key);
    }
    md.Update(if n % 2 == 1 then buf else key);
    assert md.fed == Message(LayoutOf(n), buf, salt, key);
    digest := md.Final(h);
  }

  method RunRounds(h: HashFn, md: MdCtx, rounds: nat, first: seq<byte>, salt: seq<byte>, key: seq<byte>)
    returns (buf: seq<byte>)
    modifies md
    ensures buf == Stretch(h, rounds, first, salt, key)
  {
    buf := first;
    var n := 0;
    while n < rounds
      invariant n <= rounds && buf == Stretch(h, n, first, salt, key)
    {
      buf := RunRound(h, md, n, buf, salt, key);
      n := n + 1;
    }
  }
}

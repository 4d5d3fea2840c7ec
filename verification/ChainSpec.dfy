/** A chain of blocks as values: linking, validity, and what validity protects. */
module ChainSpec {
  import opened Bytes
  import opened Digest
  import opened Merkle

  /** What the hash of a block depends on. */
  datatype BlockData = BlockData(prev: seq<byte>, root: seq<byte>)

  predicate IsBlock(b: BlockData) { |b.prev| == HASH_SIZE && |b.root| == HASH_SIZE }

  predicate AllBlocks(c: seq<BlockData>) { forall i :: 0 <= i < |c| ==> IsBlock(c[i]) }

  /** The message whose hash is the hash of a block. */
  function BlockMessage(h: HashFn, b: BlockData): seq<byte> { b.prev + h(b.root) }

  function BlockHash(h: HashFn, b: BlockData): seq<byte> { h(BlockMessage(h, b)) }

  /** Every block but the first holds the hash of the one before it. */
  predicate Linked(h: HashFn, c: seq<BlockData>) {
    forall i {:trigger c[i].prev} :: 0 < i < |c| ==> c[i].prev == BlockHash(h, c[i - 1])
  }

  predicate Valid(h: HashFn, c: seq<BlockData>) { c != [] && Linked(h, c) }

  /** The two messages that hashing a block feeds to the hash function. */
  function Hashed(h: HashFn, b: BlockData): set<seq<byte>> { {b.root, BlockMessage(h, b)} }

  /** Two different messages with one hash, each of them hashed for the given block. */
  predicate CollisionBetween(h: HashFn, a: BlockData, b: BlockData, x: seq<byte>, y: seq<byte>) {
    Collide(h, x, y) && x in Hashed(h, a) && y in Hashed(h, b)
  }

  /** Two blocks with equal hashes are equal, or a collision can be read off them. */
  function BlockCollision(h: HashFn, a: BlockData, b: BlockData): (r: (seq<byte>, seq<byte>))
    requires IsHash(h, HASH_SIZE) && IsBlock(a) && IsBlock(b) && BlockHash(h, a) == BlockHash(h, b)
    ensures a == b || CollisionBetween(h, a, b, r.0, r.1)
  {
    var m, n := BlockMessage(h, a), BlockMessage(h, b);
    assert m[..HASH_SIZE] == a.prev && n[..HASH_SIZE] == b.prev;
    assert m[HASH_SIZE..] == h(a.root) && n[HASH_SIZE..] == h(b.root);
    if m != n then (m, n) else (a.root, b.root)
  }

  datatype Verdict = Same | Collision(at: nat, x: seq<byte>, y: seq<byte>)

  /** The backward walk that compares two chains from their tails. */
  function CompareBackwards(h: HashFn, a: seq<BlockData>, b: seq<BlockData>, n: nat): (r: Verdict)
    requires IsHash(h, HASH_SIZE) && |a| == |b| && AllBlocks(a) && AllBlocks(b) && n <= |a|
    requires Linked(h, a) && Linked(h, b)
    requires n > 0 ==> BlockHash(h, a[n - 1]) == BlockHash(h, b[n - 1])
    ensures r.Same? ==> a[..n] == b[..n]
    ensures r.Collision? ==> r.at < n && CollisionBetween(h, a[r.at], b[r.at], r.x, r.y)
  {
    if n == 0 then Same
    else if a[n - 1] != b[n - 1] then
      var (x, y) := BlockCollision(h, a[n - 1], b[n - 1]);
      Collision(n - 1, x, y)
    else
      assert n > 1 ==> BlockHash(h, a[n - 2]) == a[n - 1].prev == b[n - 1].prev == BlockHash(h, b[n - 2]);
      assert a[..n] == a[..n - 1] + [a[n - 1]] && b[..n] == b[..n - 1] + [b[n - 1]];
      CompareBackwards(h, a, b, n - 1)
  }

  /** Tamper evidence: valid chains of equal length with the same tail hash are equal
      block by block, or two messages hashed for the same place collide. */
  lemma ChainsAgreeOrCollide(h: HashFn, a: seq<BlockData>, b: seq<BlockData>)
    returns (at: nat, x: seq<byte>, y: seq<byte>)
    requires IsHash(h, HASH_SIZE) && |a| == |b| && AllBlocks(a) && AllBlocks(b)
    requires Valid(h, a) && Valid(h, b) && BlockHash(h, a[|a| - 1]) == BlockHash(h, b[|b| - 1])
    ensures a == b || (at < |a| && CollisionBetween(h, a[at], b[at], x, y))
  {
    assert a[..|a|] == a && b[..|b|] == b;
    match CompareBackwards(h, a, b, |a|)
    case Same => at, x, y := 0, [], [];
    case Collision(i, u, v) => at, x, y := i, u, v;
  }

  /** Which single-block changes validation notices: exactly those that change the hash of
      a block that has a successor, or the back link of a block that has a predecessor. */
  lemma ChangeNoticed(h: HashFn, c: seq<BlockData>, k: nat, b: BlockData)
    requires Valid(h, c) && k < |c|
    ensures Valid(h, c[k := b])
       <==> && (k + 1 < |c| ==> BlockHash(h, b) == BlockHash(h, c[k]))
            && (k > 0 ==> b.prev == c[k].prev)
  {
    var d := c[k := b];
    if k + 1 < |c| { assert d[k + 1] == c[k + 1]; }
    if k > 0 { assert d[k - 1] == c[k - 1] && d[k] == b; }
    if (k + 1 < |c| ==> BlockHash(h, b) == BlockHash(h, c[k])) && (k > 0 ==> b.prev == c[k].prev) {
      forall i | 0 < i < |d|
        ensures d[i].prev == BlockHash(h, d[i - 1])
      {
        assert c[i].prev == BlockHash(h, c[i - 1]);
      }
    }
  }

  /** Changing either field of a block that is not the last one makes the chain invalid,
      or the old and the new block show a collision. */
  lemma TamperingIsEvident(h: HashFn, c: seq<BlockData>, k: nat, b: BlockData) returns (x: seq<byte>, y: seq<byte>)
    requires IsHash(h, HASH_SIZE) && Valid(h, c) && AllBlocks(c) && IsBlock(b)
    requires k + 1 < |c| && b != c[k]
    ensures !Valid(h, c[k := b]) || CollisionBetween(h, c[k], b, x, y)
  {
    x, y := [], [];
    ChangeNoticed(h, c, k, b);
    if Valid(h, c[k := b]) {
      var r := BlockCollision(h, c[k], b);
      x, y := r.0, r.1;
    }
  }

  /** The transactions of the last block are not protected: any root passes. */
  lemma TailRootIsFree(h: HashFn, c: seq<BlockData>, root: seq<byte>)
    requires Valid(h, c)
    ensures Valid(h, c[|c| - 1 := c[|c| - 1].(root := root)])
  {
  }

  /** What `create_block` appends: the tail's hash, and the root of the transactions. */
  function NextBlock(h: HashFn, c: seq<BlockData>, transactions: seq<seq<byte>>): BlockData
    requires c != [] && transactions != []
  {
    BlockData(BlockHash(h, c[|c| - 1]),
              WrittenRoot(seq(|transactions|, i requires 0 <= i < |transactions| => h(transactions[i]))))
  }

  lemma AppendKeepsValid(h: HashFn, c: seq<BlockData>, transactions: seq<seq<byte>>)
    requires Valid(h, c) && transactions != []
    ensures Valid(h, c + [NextBlock(h, c, transactions)])
  {
  }

  /** The hash of a new block depends on the chain's tail and on the first transaction;
      the other transactions can be exchanged, added or dropped. */
  lemma BlockIgnoresLaterTransactions(h: HashFn, c: seq<BlockData>, first: seq<byte>,
                                      a: seq<seq<byte>>, b: seq<seq<byte>>)
    requires c != []
    ensures NextBlock(h, c, [first] + a) == NextBlock(h, c, [first] + b)
  {
  }

  /** Every chain built from a genesis block by appending is valid, whatever the number of
      blocks and their transactions. */
  function Grow(h: HashFn, c: seq<BlockData>, blocks: seq<seq<seq<byte>>>): (d: seq<BlockData>)
    requires c != [] && forall i :: 0 <= i < |blocks| ==> blocks[i] != []
    ensures |d| == |c| + |blocks|
    decreases |blocks|
  {
    if blocks == [] then c else Grow(h, c + [NextBlock(h, c, blocks[0])], blocks[1..])
  }

  lemma {:induction false} GrownChainIsValid(h: HashFn, c: seq<BlockData>, blocks: seq<seq<seq<byte>>>)
    requires Valid(h, c) && forall i :: 0 <= i < |blocks| ==> blocks[i] != []
    ensures Valid(h, Grow(h, c, blocks)) && c <= Grow(h, c, blocks)
    decreases |blocks|
  {
    if blocks != [] {
      AppendKeepsValid(h, c, blocks[0]);
      GrownChainIsValid(h, c + [NextBlock(h, c, blocks[0])], blocks[1..]);
    }
  }

  // ---------- block by block ----------

  /** Validity, read off the blocks: each holds the hash of the previous hash of the block before
      it, followed by the hash of its root. */
  lemma ValidExactly(h: HashFn, c: seq<BlockData>)
    ensures Valid(h, c) <==>
              && c != []
              && forall k {:trigger c[k].root} :: 0 <= k < |c| - 1 ==> c[k + 1].prev == h(c[k].prev + h(c[k].root))
  {
    if Valid(h, c) {
      forall k {:trigger c[k].root} | 0 <= k < |c| - 1
        ensures c[k + 1].prev == h(c[k].prev + h(c[k].root))
      {
        assert c[k + 1].prev == BlockHash(h, c[k]);
      }
    }
    if c != [] && forall k {:trigger c[k].root} :: 0 <= k < |c| - 1 ==> c[k + 1].prev == h(c[k].prev + h(c[k].root)) {
      forall i {:trigger c[i].prev} | 0 < i < |c|
        ensures c[i].prev == BlockHash(h, c[i - 1])
      {
        assert c[i - 1 + 1].prev == h(c[i - 1].prev + h(c[i - 1].root));
      }
    }
  }

  /** The block that was appended for the transactions `blocks[i]`. */
  lemma {:induction false} GrownBlockExactly(h: HashFn, c: seq<BlockData>, blocks: seq<seq<seq<byte>>>, i: nat)
    requires c != [] && i < |blocks| && forall i :: 0 <= i < |blocks| ==> blocks[i] != []
    ensures var d, k := Grow(h, c, blocks), |c| + i;
            d[k] == BlockData(h(d[k - 1].prev + h(d[k - 1].root)), h(blocks[i][0]))
    decreases |blocks|
  {
    var next := c + [NextBlock(h, c, blocks[0])];
    if i > 0 {
      GrownBlockExactly(h, next, blocks[1..], i - 1);
    } else {
      GrownKeeps(h, next, blocks[1..]);
      var d := Grow(h, c, blocks);
      assert d[|c|] == next[|c|] && d[|c| - 1] == next[|c| - 1] == c[|c| - 1];
    }
  }

  lemma {:induction false} GrownKeeps(h: HashFn, c: seq<BlockData>, blocks: seq<seq<seq<byte>>>)
    requires c != [] && forall i :: 0 <= i < |blocks| ==> blocks[i] != []
    ensures c <= Grow(h, c, blocks)
    decreases |blocks|
  {
    if blocks != [] { GrownKeeps(h, c + [NextBlock(h, c, blocks[0])], blocks[1..]); }
  }

  lemma {:induction false} GrownChainIsBlocks(h: HashFn, c: seq<BlockData>, blocks: seq<seq<seq<byte>>>)
    requires IsHash(h, HASH_SIZE) && c != [] && AllBlocks(c)
    requires forall i :: 0 <= i < |blocks| ==> blocks[i] != []
    ensures AllBlocks(Grow(h, c, blocks))
    decreases |blocks|
  {
    if blocks != [] {
      GrownChainIsBlocks(h, c + [NextBlock(h, c, blocks[0])], blocks[1..]);
    }
  }

  /** Tamper evidence for every chain that is built from a genesis block: replacing a block
      before the tail makes it invalid, or yields a collision. */
  lemma BuiltChainIsEvident(h: HashFn, genesis: BlockData, blocks: seq<seq<seq<byte>>>, k: nat, b: BlockData)
    returns (x: seq<byte>, y: seq<byte>)
    requires IsHash(h, HASH_SIZE) && IsBlock(genesis) && IsBlock(b)
    requires forall i :: 0 <= i < |blocks| ==> blocks[i] != []
    requires k < |blocks| && b != Grow(h, [genesis], blocks)[k]
    ensures var c := Grow(h, [genesis], blocks);
            !Valid(h, c[k := b]) || CollisionBetween(h, c[k], b, x, y)
  {
    GrownChainIsValid(h, [genesis], blocks);
    GrownChainIsBlocks(h, [genesis], blocks);
    x, y := TamperingIsEvident(h, Grow(h, [genesis], blocks), k, b);
  }
}

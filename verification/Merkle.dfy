/** The Merkle tree of a block: `create_tree` as it is written, and the fold that a
    Merkle tree is meant to be, for comparison. */
module Merkle {
  import opened Bytes
  import opened Digest

  const HASH_SIZE: nat := 64

  /** The hash of an inner node. */
  function Combine(h: HashFn, a: seq<byte>, b: seq<byte>): seq<byte> { h(a + b) }

  // ---------- the code ----------

  class Node {
    var hash: seq<byte>
    var left: Node?
    var right: Node?

    /** `create_node` */
    constructor (hash: seq<byte>)
      ensures this.hash == hash && left == null && right == null
    {
      this.hash := hash;
      left, right := null, null;
    }
  }

  class MerkleTree {
    var root: Node?

    constructor (root: Node)
      ensures this.root == root
    {
      this.root := root;
    }
  }

  function Pow2(k: nat): nat { if k == 0 then 1 else 2 * Pow2(k - 1) }

  /** The `while` loop over levels. It never stores the level it builds, so it is left with
      the leaves it started from. The branch for an odd node is never taken. */
  method BuildLevels(h: HashFn, nodes: array<Node?>, n: nat) returns (ghost passes: nat)
    requires 1 <= n == nodes.Length && forall i :: 0 <= i < n ==> nodes[i] != null
    ensures n <= Pow2(passes) && (passes > 0 ==> Pow2(passes - 1) < n)
  {
    var numTransactions := n;
    passes := 0;
    while numTransactions > 1
      invariant 1 <= numTransactions <= n
      invariant (numTransactions - 1) * Pow2(passes) < n <= numTransactions * Pow2(passes)
      invariant passes > 0 ==> Pow2(passes - 1) < n
      invariant forall i :: 0 <= i < n ==> nodes[i] != null
      decreases numTransactions
    {
      var newSize := (numTransactions + 1) / 2;
      var newNodes := new Node?[newSize](_ => null);
      var i, j := 0, 0;
      while i < newSize
        invariant 0 <= i == j <= newSize
        invariant forall i :: 0 <= i < n ==> nodes[i] != null
        modifies newNodes
      {
        if i + 1 < numTransactions {
          var combined := Combine(h, nodes[i].hash, nodes[i + 1].hash);
          newNodes[j] := new Node(combined);
          j := j + 1;
        } else {
          assert false;
        }
        i := i + 1;
      }
      HalvingStep(numTransactions, passes, n);
      numTransactions := newSize;
      passes := passes + 1;
    }
  }

  lemma HalvingStep(m: nat, passes: nat, n: nat)
    requires m > 1 && (m - 1) * Pow2(passes) < n <= m * Pow2(passes)
    ensures ((m + 1) / 2 - 1) * Pow2(passes + 1) < n <= (m + 1) / 2 * Pow2(passes + 1)
    ensures Pow2(passes) < n
  {
    var p, k := Pow2(passes), (m + 1) / 2;
    MulMonotone(2 * (k - 1), m - 1, p);
    MulMonotone(m, 2 * k, p);
    MulMonotone(1, m - 1, p);
    assert (k - 1) * (2 * p) == 2 * (k - 1) * p && k * (2 * p) == 2 * k * p;
  }

  lemma MulMonotone(a: nat, b: nat, p: nat)
    requires a <= b
    ensures a * p <= b * p
  {
  }

  /** For any number of leaves: ceil(log2 n) passes, and a root that is the first leaf. */
  method CreateTree(h: HashFn, transactionHashes: seq<seq<byte>>) returns (tree: MerkleTree, ghost passes: nat)
    requires |transactionHashes| >= 1
    ensures fresh(tree) && tree.root != null && fresh(tree.root)
    ensures tree.root.hash == transactionHashes[0] && tree.root.left == null && tree.root.right == null
    ensures |transactionHashes| <= Pow2(passes) && (passes > 0 ==> Pow2(passes - 1) < |transactionHashes|)
  {
    var n := |transactionHashes|;
    var nodes := new Node?[n](_ => null);
    var i := 0;
    while i < n
      invariant 0 <= i <= n
      invariant forall k :: 0 <= k < i ==> nodes[k] != null && fresh(nodes[k])
      invariant i > 0 ==> nodes[0].hash == transactionHashes[0] && nodes[0].left == null && nodes[0].right == null
      modifies nodes
    {
      nodes[i] := new Node(transactionHashes[i]);
      i := i + 1;
    }
    passes := BuildLevels(h, nodes, n);
    tree := new MerkleTree(nodes[0]);
  }

  // ---------- the intended tree ----------

  /** The level above `level`: neighbours combined, an odd last node carried up. */
  function NextLevel(h: HashFn, level: seq<seq<byte>>): (up: seq<seq<byte>>)
    ensures |up| == (|level| + 1) / 2
    decreases |level|
  {
    if |level| <= 1 then level else [Combine(h, level[0], level[1])] + NextLevel(h, level[2..])
  }

  /** The root a Merkle tree over these leaves should have. Not what the code computes. */
  function IntendedRoot(h: HashFn, leaves: seq<seq<byte>>): seq<byte>
    requires leaves != []
    decreases |leaves|
  {
    if |leaves| == 1 then leaves[0] else IntendedRoot(h, NextLevel(h, leaves))
  }

  /** The root the code computes: `CreateTree` ties it to the first leaf. */
  function WrittenRoot(leaves: seq<seq<byte>>): seq<byte>
    requires leaves != []
  {
    leaves[0]
  }

  /** All messages that building the intended tree hashes. */
  function LevelMessages(level: seq<seq<byte>>): set<seq<byte>>
    decreases |level|
  {
    if |level| <= 1 then {} else {level[0] + level[1]} + LevelMessages(level[2..])
  }

  function TreeMessages(h: HashFn, leaves: seq<seq<byte>>): set<seq<byte>>
    decreases |leaves|
  {
    if |leaves| <= 1 then {} else LevelMessages(leaves) + TreeMessages(h, NextLevel(h, leaves))
  }

  /** Two different messages with the same hash. */
  predicate Collide(h: HashFn, x: seq<byte>, y: seq<byte>) { x != y && h(x) == h(y) }

  predicate AllHashes(s: seq<seq<byte>>) { forall i :: 0 <= i < |s| ==> |s[i]| == HASH_SIZE }

  lemma {:induction false} NextLevelIsHashes(h: HashFn, level: seq<seq<byte>>)
    requires IsHash(h, HASH_SIZE) && AllHashes(level)
    ensures AllHashes(NextLevel(h, level))
    decreases |level|
  {
    if |level| > 1 { NextLevelIsHashes(h, level[2..]); }
  }

  /** Equal next levels: the levels are equal, or two messages hashed for them collide. */
  lemma {:induction false} LevelCollision(h: HashFn, a: seq<seq<byte>>, b: seq<seq<byte>>)
    returns (x: seq<byte>, y: seq<byte>)
    requires IsHash(h, HASH_SIZE) && |a| == |b| && AllHashes(a) && AllHashes(b)
    requires NextLevel(h, a) == NextLevel(h, b)
    ensures a == b || (Collide(h, x, y) && x in LevelMessages(a) && y in LevelMessages(b))
    decreases |a|
  {
    x, y := [], [];
    if |a| > 1 {
      var m, n := a[0] + a[1], b[0] + b[1];
      assert NextLevel(h, a)[0] == h(m) && NextLevel(h, b)[0] == h(n);
      if m != n { return m, n; }
      assert a[0] == m[..HASH_SIZE] == n[..HASH_SIZE] == b[0];
      assert a[1] == m[HASH_SIZE..] == n[HASH_SIZE..] == b[1];
      assert NextLevel(h, a)[1..] == NextLevel(h, a[2..]) && NextLevel(h, b)[1..] == NextLevel(h, b[2..]);
      x, y := LevelCollision(h, a[2..], b[2..]);
      assert a == [a[0], a[1]] + a[2..] && b == [b[0], b[1]] + b[2..];
    }
  }

  /** The intended root commits to every leaf: equal roots over equally many leaves mean
      equal leaves, or a collision among the messages that were hashed. */
  lemma {:induction false} IntendedRootBinds(h: HashFn, a: seq<seq<byte>>, b: seq<seq<byte>>)
    returns (x: seq<byte>, y: seq<byte>)
    requires IsHash(h, HASH_SIZE) && |a| == |b| >= 1 && AllHashes(a) && AllHashes(b)
    requires IntendedRoot(h, a) == IntendedRoot(h, b)
    ensures a == b || (Collide(h, x, y) && x in TreeMessages(h, a) && y in TreeMessages(h, b))
    decreases |a|
  {
    x, y := [], [];
    if |a| > 1 {
      NextLevelIsHashes(h, a);
      NextLevelIsHashes(h, b);
      x, y := IntendedRootBinds(h, NextLevel(h, a), NextLevel(h, b));
      if NextLevel(h, a) == NextLevel(h, b) {
        x, y := LevelCollision(h, a, b);
      }
    } else {
      assert a == [a[0]] && b == [b[0]];
    }
  }

  /** What the documentation asks of a tree over `n` transactions: its root tells them all. */
  ghost predicate RootCovers(n: nat) {
    forall a: seq<seq<byte>>, b: seq<seq<byte>> ::
      |a| == |b| == n && AllHashes(a) && AllHashes(b) && n > 0 && WrittenRoot(a) == WrittenRoot(b) ==> a == b
  }

  /** The written root does so for exactly one transaction. */
  lemma RootCoversOneOnly(n: nat)
    requires n >= 1
    ensures RootCovers(n) <==> n == 1
  {
    if n == 1 {
      forall a: seq<seq<byte>>, b: seq<seq<byte>> | |a| == |b| == n && WrittenRoot(a) == WrittenRoot(b)
        ensures a == b
      {
        assert a == [a[0]] && b == [b[0]];
      }
    } else {
      var a, b := TwoLists(n);
      assert WrittenRoot(a) == WrittenRoot(b);
    }
  }

  /** Two lists of hashes that differ in the second place. */
  lemma TwoLists(n: nat) returns (a: seq<seq<byte>>, b: seq<seq<byte>>)
    requires n >= 2
    ensures |a| == |b| == n && AllHashes(a) && AllHashes(b) && a != b && a[0] == b[0]
  {
    var zeros, ones := seq(HASH_SIZE, _ => 0), seq(HASH_SIZE, _ => 1);
    a := seq(n, _ => zeros);
    b := a[1 := ones];
    assert zeros[0] != ones[0];
    assert a[1] != b[1];
  }

  /** Two trees that the code builds over equally many transactions have the same root hash
      exactly if the first transactions are the same. */
  method CompareTrees(h: HashFn, a: seq<seq<byte>>, b: seq<seq<byte>>) returns (same: bool)
    requires |a| == |b| >= 1
    ensures same <==> a[0] == b[0]
    ensures |a| == 1 ==> (same <==> a == b)
  {
    var left, _ := CreateTree(h, a);
    var right, _ := CreateTree(h, b);
    same := left.root.hash == right.root.hash;
  }

  /** Whatever the hash function, for two transactions or more there are different lists over
      which the code builds trees with the same root hash. */
  method BuildSameRoots(h: HashFn, n: nat) returns (a: seq<seq<byte>>, b: seq<seq<byte>>, same: bool)
    requires n >= 2
    ensures |a| == |b| == n && AllHashes(a) && AllHashes(b) && a != b && same
  {
    var zeros: seq<byte>, ones: seq<byte> := seq(HASH_SIZE, _ => 0), seq(HASH_SIZE, _ => 1);
    a := seq(n, _ => zeros);
    b := a[1 := ones];
    assert a[1][0] != b[1][0];
    same := CompareTrees(h, a, b);
  }
}

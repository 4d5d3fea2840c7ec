/** The block chain of `blockchain.c`: a linked list on the heap with head, tail and count. */
module Blockchain {
  import opened Bytes
  import opened ChainSpec
  import opened Digest
  import opened Merkle

  const INT_MAX: int := 0x7FFF_FFFF
  const GENESIS_DATA: CString := Ascii("Genesis")

  class Block {
    var nextBlock: Block?
    var prevBlockHash: seq<byte>
    var timestamp: int
    var merkletree: MerkleTree?

    /** `malloc`: the fields are set by the caller. */
    constructor ()
      ensures nextBlock == null && merkletree == null
    {
      nextBlock, prevBlockHash, timestamp, merkletree := null, [], 0, null;
    }

    /** The tree that hashing a block dereferences. */
    ghost predicate HasRoot()
      reads this, merkletree
    {
      merkletree != null && merkletree.root != null
    }

    /** The tree is a single node: all that `create_tree` builds. */
    ghost predicate HasLeaf()
      reads this, merkletree, if merkletree == null then null else merkletree.root
    {
      HasRoot() && merkletree.root.left == null && merkletree.root.right == null
    }

    ghost function Data(): BlockData
      requires HasRoot()
      reads this, merkletree, merkletree.root
    {
      BlockData(prevBlockHash, merkletree.root.hash)
    }
  }

  method CalculateBlockHash(h: HashFn, block: Block) returns (digest: seq<byte>)
    requires block.HasRoot()
    ensures digest == BlockHash(h, block.Data()) == h(block.prevBlockHash + h(block.merkletree.root.hash))
  {
    var merkleRoot := h(block.merkletree.root.hash);
    digest := h(block.prevBlockHash + merkleRoot);
  }

  method ValidateBlock(h: HashFn, block: Block?, prevBlock: Block?) returns (ok: bool)
    requires prevBlock != null ==> prevBlock.HasRoot()
    ensures ok <==> block != null && prevBlock != null && block.prevBlockHash == BlockHash(h, prevBlock.Data())
  {
    if block == null || prevBlock == null {
      return false;
    }
    var digest := CalculateBlockHash(h, prevBlock);
    ok := block.prevBlockHash == digest;
  }

  /** The hash of every transaction, unless memory for the table or for one of them fails. */
  method HashTransactions(h: HashFn, transactions: seq<CString>, memory: nat -> bool)
    returns (r: Option<seq<seq<byte>>>)
    requires transactions != []
    ensures r.Some? ==> forall k: nat :: 1 <= k < |transactions| + 2 ==> memory(k)
    ensures r.None? ==> exists k: nat :: 1 <= k < |transactions| + 2 && !memory(k)
    ensures r.Some? ==> r.value == seq(|transactions|, k requires 0 <= k < |transactions| => h(transactions[k]))
  {
    if !memory(1) {
      return None;
    }
    var hashes := [];
    var i := 0;
    while i < |transactions|
      invariant 0 <= i <= |transactions|
      invariant hashes == seq(i, k requires 0 <= k < i => h(transactions[k]))
      invariant forall k: nat :: 1 <= k < i + 2 ==> memory(k)
    {
      if !memory(2 + i) {
        return None;
      }
      hashes := hashes + [h(transactions[i])];
      i := i + 1;
    }
    r := Some(hashes);
  }

  /** The part of `create_block` before the list is touched. Allocation `k` of the call
      succeeds if `memory(k)` does: 0 is the block, 1 the table of hashes, and 2 + i the
      hash of transaction i. */
  method NewBlock(h: HashFn, last: Block, transactions: seq<CString>, now: int, memory: nat -> bool)
    returns (block: Block?)
    requires last.HasRoot() && transactions != []
    ensures block != null <==> forall k: nat :: k < |transactions| + 2 ==> memory(k)
    ensures block != null ==>
              && fresh(block) && block.HasLeaf() && fresh(block.merkletree) && fresh(block.merkletree.root)
              && block.nextBlock == null && block.timestamp == now
              && block.Data() == BlockData(BlockHash(h, last.Data()), h(transactions[0]))
  {
    if !memory(0) {
      return null;
    }
    var newBlock := new Block();
    var hash := CalculateBlockHash(h, last);
    newBlock.prevBlockHash := hash;
    newBlock.timestamp := now;
    var hashes := HashTransactions(h, transactions, memory);
    if hashes.None? {
      return null;
    }
    var tree, _ := CreateTree(h, hashes.value);
    newBlock.merkletree := tree;
    newBlock.nextBlock := null;
    block := newBlock;
  }

  class Chain {
    var head: Block?
    var tail: Block?
    var count: int
    ghost var blocks: seq<Block>
    ghost var view: seq<BlockData>  // the blocks as values
    ghost var Repr: set<object>

    /** The list is a proper one: acyclic, ended by the tail, and as long as `count` says.
        Nothing is said about hashes. */
    ghost predicate IsList()
      reads this, Repr
      ensures IsList() ==> this in Repr
    {
      && this in Repr
      && count == |blocks| == |view|
      && (forall i {:trigger blocks[i]} :: 0 <= i < |blocks| ==> Owns(blocks[i]) && blocks[i].Data() == view[i])
      && (forall i, j :: 0 <= i < j < |blocks| ==> blocks[i] != blocks[j] && TreesDiffer(blocks[i], blocks[j]))
      && (if blocks == [] then head == null && tail == null
          else
            && head == blocks[0] && tail == blocks[|blocks| - 1] && tail.nextBlock == null
            && forall i {:trigger blocks[i].nextBlock} :: 0 <= i < |blocks| - 1
                ==> blocks[i].nextBlock == blocks[i + 1])
    }

    ghost predicate Owns(b: Block)
      reads this, Repr
    {
      && b in Repr
      && b.merkletree != null && (b.merkletree as object) in Repr
      && b.merkletree.root != null && (b.merkletree.root as object) in Repr
      && b.merkletree.root.left == null && b.merkletree.root.right == null
    }

    /** No part of a tree belongs to two blocks. */
    ghost predicate TreesDiffer(a: Block, b: Block)
      requires Owns(a) && Owns(b)
      reads this, Repr
    {
      a.merkletree != b.merkletree && a.merkletree.root != b.merkletree.root
    }

    /** `Blockchain blockchain = {0};` */
    constructor ()
      ensures IsList() && view == [] && fresh(Repr)
    {
      head, tail, count := null, null, 0;
      blocks, view, Repr := [], [], {this};
    }

    /** `create_blockchain`; `hasMemory` tells whether the genesis block gets memory. */
    method CreateBlockchain(h: HashFn, now: int, hasMemory: bool)
      requires IsList() && view == []
      modifies this
      ensures IsList() && fresh(Repr - old(Repr))
      ensures !hasMemory ==> view == []
      ensures hasMemory ==> view == [BlockData(seq(HASH_SIZE, _ => 0), h(GENESIS_DATA))]
    {
      if !hasMemory {
        return;
      }
      var genesis := new Block();
      var hash := h(GENESIS_DATA);
      var tree, _ := CreateTree(h, [hash]);
      genesis.merkletree := tree;
      genesis.timestamp := now;
      genesis.prevBlockHash := seq(HASH_SIZE, _ => 0);
      genesis.nextBlock := null;
      head, tail, count := genesis, genesis, 1;
      blocks, view, Repr := [genesis], [genesis.Data()], {this, genesis, tree, tree.root};
    }

    /** Makes `block`, which holds a tree of its own, the new tail. */
    method Link(block: Block)
      requires IsList() && blocks != [] && count < INT_MAX
      requires block !in Repr && block.HasLeaf() && block.nextBlock == null
      requires (block.merkletree as object) !in Repr && (block.merkletree.root as object) !in Repr
      modifies this, tail
      ensures IsList() && blocks == old(blocks) + [block] && view == old(view) + [old(block.Data())]
      ensures Repr == old(Repr) + {block, block.merkletree, block.merkletree.root}
    {
      if tail != null {
        tail.nextBlock := block;
      } else {
        assert false;
      }
      tail := block;
      count := count + 1;
      blocks := blocks + [block];
      view := view + [block.Data()];
      Repr := Repr + {block, block.merkletree, block.merkletree.root};
      assert Owns(block);
      assert forall i {:trigger blocks[i]} ::
          0 <= i < |blocks| - 1 ==> Owns(blocks[i]) && TreesDiffer(blocks[i], block);
    }

    /** `create_block`: nothing changes unless all its allocations succeed. */
    method CreateBlock(h: HashFn, transactions: seq<CString>, now: int, memory: nat -> bool) returns (block: Block?)
      requires IsList() && view != [] && transactions != [] && count < INT_MAX
      modifies this, tail
      ensures IsList() && fresh(Repr - old(Repr))
      ensures block != null <==> forall k: nat :: k < |transactions| + 2 ==> memory(k)
      ensures block == null ==> unchanged(this) && unchanged(old(blocks))
      ensures block != null ==>
                && blocks == old(blocks) + [block] && block.timestamp == now
                && view == old(view) + [NextBlock(h, old(view), transactions)]
                && var last := old(view)[|old(view)| - 1];
                   NextBlock(h, old(view), transactions)
                   == BlockData(h(last.prev + h(last.root)), h(transactions[0]))
    {
      block := NewBlock(h, tail, transactions, now, memory);
      if block != null {
        Link(block);
      }
    }

    /** The loop of `destroy_blockchain`: the link of a block is read, its tree is released,
        and then the block. */
    method ReleaseBlocks() returns (freed: seq<Block>, trees: seq<MerkleTree>, nodes: seq<Node>)
      requires IsList()
      ensures freed == blocks && |trees| == |nodes| == |freed|
      ensures forall i :: 0 <= i < |freed| ==> freed[i].merkletree == trees[i] && trees[i].root == nodes[i]
    {
      freed, trees, nodes := [], [], [];
      var curr := head;
      while curr != null
        invariant |freed| <= |blocks| && freed == blocks[..|freed|] && |trees| == |nodes| == |freed|
        invariant forall i :: 0 <= i < |freed| ==> freed[i].merkletree == trees[i] && trees[i].root == nodes[i]
        invariant curr == if |freed| < |blocks| then blocks[|freed|] else null
        decreases |blocks| - |freed|
      {
        var next := curr.nextBlock;
        assert Owns(blocks[|freed|]);
        var node := FreeTree(curr.merkletree);
        trees, nodes, freed := trees + [curr.merkletree], nodes + node, freed + [curr];
        curr := next;
      }
    }

    /** `destroy_blockchain`: every block and every part of its tree is released, and nothing
        is released twice. */
    method Destroy() returns (freed: seq<Block>, trees: seq<MerkleTree>, nodes: seq<Node>)
      requires IsList()
      modifies this
      ensures IsList() && view == [] && head == null && tail == null && count == 0
      ensures freed == old(blocks) && |trees| == |nodes| == |freed|
      ensures forall i :: 0 <= i < |freed| ==> freed[i].merkletree == trees[i] && trees[i].root == nodes[i]
      ensures forall i, j :: 0 <= i < j < |freed| ==>
                freed[i] != freed[j] && trees[i] != trees[j] && nodes[i] != nodes[j]
    {
      freed, trees, nodes := ReleaseBlocks();
      assert forall i, j :: 0 <= i < j < |freed| ==> TreesDiffer(freed[i], freed[j]);
      head, tail, count := null, null, 0;
      blocks, view, Repr := [], [], {this};
    }
  }

  /** `free_node`: the children first. */
  method FreeNode(node: Node?) returns (freed: seq<Node>)
    requires node != null ==> node.left == null && node.right == null
    ensures freed == if node == null then [] else [node]
    decreases if node == null then 0 else 1
  {
    freed := [];
    if node != null {
      var left := FreeNode(node.left);
      var right := FreeNode(node.right);
      freed := left + right + [node];
    }
  }

  /** `free_tree`, up to the tree itself. */
  method FreeTree(tree: MerkleTree) returns (freed: seq<Node>)
    requires tree.root != null && tree.root.left == null && tree.root.right == null
    ensures freed == [tree.root]
  {
    freed := FreeNode(tree.root);
  }

  /** Following one link of a proper list. */
  lemma NextOf(chain: Chain, i: nat)
    requires chain.IsList() && i < |chain.blocks|
    ensures chain.blocks[i].nextBlock == if i + 1 < |chain.blocks| then chain.blocks[i + 1] else null
    ensures chain.blocks[i].HasRoot() && chain.view[i] == chain.blocks[i].Data()
  {
  }

  /** `validate_blockchain`, for any proper list, whoever wrote its blocks. */
  method ValidateBlockchain(h: HashFn, blockchain: Chain?) returns (valid: bool)
    requires blockchain != null ==> blockchain.IsList()
    ensures valid <==> blockchain != null && Valid(h, blockchain.view)
  {
    if blockchain == null || blockchain.head == null {
      return false;
    }
    valid := true;
    var curr := blockchain.head;
    ghost var i, v := 0, blockchain.view;
    NextOf(blockchain, 0);
    while curr != null && curr.nextBlock != null
      invariant 0 <= i < |v| == |blockchain.blocks| && curr == blockchain.blocks[i] && valid
      invariant curr.nextBlock == if i + 1 < |v| then blockchain.blocks[i + 1] else null
      invariant curr.HasRoot() && v[i] == curr.Data()
      invariant Linked(h, v[..i + 1])
      decreases |v| - i
    {
      NextOf(blockchain, i + 1);
      var ok := ValidateBlock(h, curr.nextBlock, curr);
      if !ok {
        valid := false;
        break;
      }
      LinkedOneMore(h, v, i);
      curr := curr.nextBlock;
      i := i + 1;
    }
    assert valid ==> v[..i + 1] == v;
  }

  lemma LinkedOneMore(h: HashFn, v: seq<BlockData>, i: nat)
    requires i + 1 < |v| && Linked(h, v[..i + 1])
    ensures Linked(h, v[..i + 2]) <==> v[i + 1].prev == BlockHash(h, v[i])
  {
    var w := v[..i + 2];
    assert w[i + 1] == v[i + 1];
    forall k {:trigger w[k].prev} | 0 < k <= i
      ensures w[k].prev == BlockHash(h, w[k - 1])
    {
      assert v[..i + 1][k] == w[k];
    }
  }

  /** A whole run: however many blocks are added, the chain validates. */
  method BuildAndValidate(h: HashFn, now: int, chains: seq<seq<CString>>) returns (chain: Chain, valid: bool)
    requires |chains| < INT_MAX && forall i :: 0 <= i < |chains| ==> chains[i] != []
    ensures valid && chain.IsList() && |chain.blocks| == |chains| + 1
    ensures chain.view == Grow(h, [BlockData(seq(HASH_SIZE, _ => 0), h(GENESIS_DATA))], chains)
    ensures chain.view[0] == BlockData(seq(64, _ => 0), h(Ascii("Genesis")))
    ensures forall i: nat {:trigger chains[i]} :: i < |chains| ==>
              var b, last := chain.view[i + 1], chain.view[i];
              b == BlockData(h(last.prev + h(last.root)), h(chains[i][0]))
    ensures IsHash(h, HASH_SIZE) ==> AllBlocks(chain.view)
  {
    chain := new Chain();
    chain.CreateBlockchain(h, now, true);
    ghost var genesis := chain.view;
    ghost var goal := Grow(h, genesis, chains);
    var i := 0;
    while i < |chains|
      invariant 0 <= i <= |chains| && chain.IsList() && fresh(chain.Repr) && |chain.blocks| == i + 1
      invariant Grow(h, chain.view, chains[i..]) == goal
    {
      var block := chain.CreateBlock(h, chains[i], now, (k: nat) => true);
      assert chains[i..][1..] == chains[i + 1..];
      i := i + 1;
    }
    GrownChainIsValid(h, genesis, chains);
    forall i: nat {:trigger chains[i]} | i < |chains| { GrownBlockExactly(h, genesis, chains, i); }
    if IsHash(h, HASH_SIZE) { GrownChainIsBlocks(h, genesis, chains); }
    valid := ValidateBlockchain(h, chain);
  }
}

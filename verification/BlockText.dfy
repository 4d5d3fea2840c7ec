/** `block_to_string`: bounded appends into one buffer, and what is left of the text. */
module BlockText {
  import opened Blockchain
  import opened Bytes
  import opened Decimals
  import opened Digest
  import opened Merkle

  /** `HASH_SIZE * 2 + sizeof(block->timestamp) + 100` */
  const BLOCK_SIZE: nat := HASH_SIZE * 2 + 8 + 100

  const PREVIOUS_LABEL: CString := Ascii("Previous Block Hash: ")
  const TIME_LABEL: CString := Ascii("\nTimestamp: ")
  const ROOT_LABEL: CString := Ascii("Merkle Tree Root Hash: ")
  const NO_TREE: CString := Ascii("Merkle Tree: NULL\n")

  function HexDigit(v: nat): byte
    requires v < 16
  {
    if v < 10 then 0x30 + v else 0x61 + (v - 10)
  }

  /** What "%02x" prints. */
  function HexByte(b: byte): (s: CString)
    ensures |s| == 2
  {
    [HexDigit(b / 16), HexDigit(b % 16)]
  }

  function Hex(bytes: seq<byte>): (s: CString)
    ensures |s| == 2 * |bytes|
  {
    if bytes == [] then [] else Hex(bytes[..|bytes| - 1]) + HexByte(bytes[|bytes| - 1])
  }

  function HeadText(prev: seq<byte>, timestamp: int): CString {
    PREVIOUS_LABEL + Hex(prev) + (TIME_LABEL + Signed(timestamp) + [10])
  }

  function RootText(h: HashFn, root: Option<seq<byte>>): CString {
    if root.Some? then ROOT_LABEL + Hex(h(root.value)) else NO_TREE
  }

  /** The text without any limit. */
  function FullText(h: HashFn, prev: seq<byte>, timestamp: int, root: Option<seq<byte>>): CString {
    HeadText(prev, timestamp) + RootText(h, root)
  }

  ghost function RootOf(block: Block): Option<seq<byte>>
    reads block, block.merkletree, if block.merkletree != null then block.merkletree.root else null
  {
    if block.HasRoot() then Some(block.merkletree.root.hash) else None
  }

  // ---------- character by character ----------

  /** A small hexadecimal figure. */
  function Figure(v: nat): char
    requires v < 16
  {
    if v < 10 then '0' + v as char else 'a' + (v - 10) as char
  }

  /** Each byte is shown by two figures, the higher one first. */
  lemma {:induction false} HexExactly(bytes: seq<byte>, i: nat)
    requires i < |bytes|
    ensures Hex(bytes)[2 * i] == Figure(bytes[i] / 16) as int && Hex(bytes)[2 * i + 1] == Figure(bytes[i] % 16) as int
  {
    if i < |bytes| - 1 { HexExactly(bytes[..|bytes| - 1], i); }
  }

  /** The whole text of a block. */
  lemma TextExactly(h: HashFn, prev: seq<byte>, timestamp: int, root: Option<seq<byte>>)
    ensures FullText(h, prev, timestamp, root)
         == Ascii("Previous Block Hash: ") + Hex(prev)
            + (Ascii("\nTimestamp: ") + Signed(timestamp) + ['\n' as int])
            + if root.Some? then Ascii("Merkle Tree Root Hash: ") + Hex(h(root.value)) else Ascii("Merkle Tree: NULL\n")
  {
  }

  // ---------- the code ----------

  /** `for (i = 0; i < |bytes|; i++) snprintf(str + strlen(str), ..., "%02x", bytes[i]);` */
  method AppendHex(str: array<byte>, bytes: seq<byte>, ghost before: CString)
    requires 0 in str[..] && Text(str[..]) == Prefix(before, str.Length - 1)
    modifies str
    ensures 0 in str[..] && Text(str[..]) == Prefix(before + Hex(bytes), str.Length - 1)
  {
    var i := 0;
    assert before + Hex(bytes[..0]) == before;
    while i < |bytes|
      invariant 0 <= i <= |bytes| && 0 in str[..]
      invariant Text(str[..]) == Prefix(before + Hex(bytes[..i]), str.Length - 1)
    {
      AppendMore(str, HexByte(bytes[i]), before + Hex(bytes[..i]));
      assert bytes[..i + 1][..i] == bytes[..i];
      assert before + Hex(bytes[..i]) + HexByte(bytes[i]) == before + Hex(bytes[..i + 1]);
      i := i + 1;
    }
    assert bytes[..|bytes|] == bytes;
  }

  /** One append to a buffer that holds what fits of `before`. */
  method AppendMore(str: array<byte>, src: CString, ghost before: CString)
    requires 0 in str[..] && Text(str[..]) == Prefix(before, str.Length - 1)
    modifies str
    ensures 0 in str[..] && Text(str[..]) == Prefix(before + src, str.Length - 1)
  {
    Append(str, src);
    PrefixAppend(before, src, str.Length - 1);
  }

  /** The result is the part of the full text that fits, NUL-terminated in the buffer. */
  method BlockToString(h: HashFn, block: Block, hasMemory: bool) returns (str: array?<byte>)
    ensures str == null <==> !hasMemory
    ensures str != null ==>
      && fresh(str) && str.Length == BLOCK_SIZE && 0 in str[..]
      && Text(str[..]) == Prefix(FullText(h, block.prevBlockHash, block.timestamp, RootOf(block)), BLOCK_SIZE - 1)
  {
    if !hasMemory {
      return null;
    }
    str := new byte[BLOCK_SIZE](_ => 0);
    WriteHead(str, block.prevBlockHash, block.timestamp);
    WriteRoot(h, str, block, HeadText(block.prevBlockHash, block.timestamp));
  }

  /** The line for the tree; `head` is what was written before it. */
  method WriteRoot(h: HashFn, str: array<byte>, block: Block, ghost head: CString)
    requires 0 in str[..] && Text(str[..]) == Prefix(head, str.Length - 1)
    modifies str
    ensures 0 in str[..] && Text(str[..]) == Prefix(head + RootText(h, RootOf(block)), str.Length - 1)
  {
    if block.merkletree != null && block.merkletree.root != null {
      var rootHash := h(block.merkletree.root.hash);
      AppendMore(str, ROOT_LABEL, head);
      AppendHex(str, rootHash, head + ROOT_LABEL);
      assert head + ROOT_LABEL + Hex(rootHash) == head + (ROOT_LABEL + Hex(rootHash));
    } else {
      AppendMore(str, NO_TREE, head);
    }
  }

  /** The lines for the back link and the time. */
  method WriteHead(str: array<byte>, prev: seq<byte>, timestamp: int)
    requires str.Length > 0 && str[0] == 0
    modifies str
    ensures 0 in str[..] && Text(str[..]) == Prefix(HeadText(prev, timestamp), str.Length - 1)
  {
    TextUnique(str[..], []);
    AppendMore(str, PREVIOUS_LABEL, []);
    assert [] + PREVIOUS_LABEL == PREVIOUS_LABEL;
    AppendHex(str, prev, PREVIOUS_LABEL);
    AppendMore(str, TIME_LABEL + Signed(timestamp) + [10], PREVIOUS_LABEL + Hex(prev));
  }

  /** The buffer is too short for a block with a tree: of the 128 hex digits of the root
      hash only 50 are shown, less one for each character of the timestamp. */
  lemma RootHashIsCut(h: HashFn, prev: seq<byte>, timestamp: int, root: seq<byte>)
    requires IsHash(h, HASH_SIZE) && |prev| == HASH_SIZE
    requires -0x8000_0000_0000_0000 <= timestamp < 0x8000_0000_0000_0000
    ensures |Signed(timestamp)| <= 20 && |Hex(h(root))| == 128
    ensures Prefix(FullText(h, prev, timestamp, Some(root)), BLOCK_SIZE - 1)
         == HeadText(prev, timestamp) + ROOT_LABEL + Hex(h(root))[..50 - |Signed(timestamp)|]
  {
    SignedSize(timestamp);
    var head, hex := HeadText(prev, timestamp) + ROOT_LABEL, Hex(h(root));
    assert |head| == 185 + |Signed(timestamp)|;
    PrefixCutsSecond(head, hex, BLOCK_SIZE - 1);
    assert HeadText(prev, timestamp) + (ROOT_LABEL + hex) == head + hex;
  }

  /** Without a tree nothing is lost. */
  lemma NoTreeIsShownWhole(h: HashFn, prev: seq<byte>, timestamp: int)
    requires |prev| == HASH_SIZE && -0x8000_0000_0000_0000 <= timestamp < 0x8000_0000_0000_0000
    ensures Prefix(FullText(h, prev, timestamp, None), BLOCK_SIZE - 1) == FullText(h, prev, timestamp, None)
  {
    SignedSize(timestamp);
    assert |FullText(h, prev, timestamp, None)| == 180 + |Signed(timestamp)|;
  }
}

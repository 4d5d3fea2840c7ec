/** Message digests as uninterpreted functions, and the streaming interface over them. */
module Digest {
  import opened Bytes

  type HashFn = seq<byte> -> seq<byte>

  /** `h` yields digests of `size` bytes. Nothing else is known about it. */
  ghost predicate IsHash(h: HashFn, size: nat) {
    forall m :: |h(m)| == size
  }

  /** An `EVP_MD_CTX`: it is the bytes fed to it since it was last initialised. */
  class MdCtx {
    var fed: seq<byte>
    var live: bool

    constructor ()
      ensures !live
    {
      fed, live := [], false;
    }

    method Init()
      modifies this
      ensures live && fed == []
    {
      fed, live := [], true;
    }

    method Update(data: seq<byte>)
      requires live
      modifies this
      ensures live && fed == old(fed) + data
    {
      fed := fed + data;
    }

    method Final(h: HashFn) returns (digest: seq<byte>)
      requires live
      modifies this
      ensures !live && digest == h(old(fed))
    {
      digest, live := h(fed), false;
    }
  }
}

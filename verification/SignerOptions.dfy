/** The option loop of `cms_main` and the signer loop behind it, on the variables they use:
    two file names, two stacks, and a linked list of key parameters with a tail pointer. */
module SignerOptions {
  import opened Bytes
  import opened SignerSpec
  import opened SignerStray

  class KeyParam {
    const idx: int
    var param: seq<string>
    var next: KeyParam?

    constructor (idx: int)
      ensures this.idx == idx && param == [] && next == null
    {
      this.idx, param, next := idx, [], null;
    }
  }

  class CmsOptions {
    var operation: Operation
    var encerts: nat
    var signerfile: Option<string>
    var keyfile: Option<string>
    var sksigners: seq<string>
    var skkeys: seq<string>
    var keyFirst: KeyParam?
    var keyParam: KeyParam?
    ghost var list: seq<KeyParam>  // the nodes from keyFirst to keyParam
    ghost var params: seq<Param>  // the nodes as values

    ghost predicate Valid()
      reads this, list
    {
      && |sksigners| == |skkeys| && |params| == |list|
      && (forall i {:trigger list[i]} {:trigger params[i]} ::
            0 <= i < |list| ==> params[i] == Param(list[i].idx, list[i].param))
      && (forall i, j :: 0 <= i < j < |list| ==> list[i] != list[j])
      && (forall i {:trigger list[i].next} :: 0 <= i < |list| - 1 ==> list[i].next == list[i + 1])
      && (if list == [] then keyFirst == null && keyParam == null
          else keyFirst == list[0] && keyParam == list[|list| - 1] && keyParam.next == null)
    }

    ghost function Abs(): State
      reads this
    {
      State(operation, encerts, signerfile, keyfile, sksigners, skkeys, params)
    }

    constructor ()
      ensures Valid() && Abs() == INITIAL && list == []
    {
      operation, encerts := NoOperation, 0;
      signerfile, keyfile := None, None;
      sksigners, skkeys := [], [];
      keyFirst, keyParam := null, null;
      list, params := [], [];
    }

    method Signer(arg: string)
      requires Valid()
      modifies this
      ensures Valid() && list == old(list) && Step(old(Abs()), OptSigner(arg)) == Some(Abs())
    {
      if signerfile.Some? {
        sksigners := sksigners + [signerfile.value];
        if keyfile.None? {
          keyfile := signerfile;
        }
        skkeys := skkeys + [keyfile.value];
        keyfile := None;
      }
      signerfile := Some(arg);
    }

    method Inkey(arg: string) returns (ok: bool)
      requires Valid()
      modifies this
      ensures Valid() && list == old(list)
      ensures Step(old(Abs()), OptInkey(arg)) == if ok then Some(Abs()) else None
    {
      if keyfile.Some? {
        if signerfile.None? {
          return false;
        }
        sksigners := sksigners + [signerfile.value];
        signerfile := None;
        skkeys := skkeys + [keyfile.value];
      }
      keyfile := Some(arg);
      ok := true;
    }

    /** A node for `keyidx`, appended through the tail pointer unless the tail has it. */
    method OpenParam(keyidx: int)
      requires Valid()
      modifies this`keyFirst, this`keyParam, this`list, this`params, list
      ensures Valid() && keyParam != null && keyParam.idx == keyidx
      ensures keyParam in old(list) || fresh(keyParam)
      ensures forall n :: n in list ==> n in old(list) || fresh(n)
      ensures if old(list) != [] && old(keyParam).idx == keyidx then list == old(list) && params == old(params)
              else list == old(list) + [keyParam] && params == old(params) + [Param(keyidx, [])]
    {
      if keyParam == null || keyParam.idx != keyidx {
        var nparam := new KeyParam(keyidx);
        if keyFirst == null {
          keyFirst := nparam;
        } else {
          keyParam.next := nparam;
        }
        keyParam := nparam;
        list := list + [nparam];
        params := params + [Param(keyidx, [])];
      }
    }

    /** `sk_OPENSSL_STRING_push(key_param->param, arg)` */
    method PushOption(arg: string)
      requires Valid() && keyParam != null
      modifies this`params, keyParam
      ensures Valid()
      ensures var n := |old(params)|;
              params == old(params)[n - 1 := Param(keyParam.idx, old(params)[n - 1].opts + [arg])]
    {
      keyParam.param := keyParam.param + [arg];
      params := params[|params| - 1 := Param(keyParam.idx, keyParam.param)];
    }

    method Keyopt(arg: string) returns (ok: bool)
      requires Valid()
      modifies this, list
      ensures Valid() && forall n :: n in list ==> n in old(list) || fresh(n)
      ensures Step(old(Abs()), OptKeyopt(arg)) == if ok then Some(Abs()) else None
    {
      var keyidx := -1;
      if operation == Encrypt {
        if encerts > 0 {
          keyidx := keyidx + encerts;
        }
      } else {
        if keyfile.Some? || signerfile.Some? {
          keyidx := keyidx + 1;
        }
        keyidx := keyidx + |skkeys|;
      }
      if keyidx < 0 {
        return false;
      }
      OpenParam(keyidx);
      PushOption(arg);
      assert [] + [arg] == [arg];
      assert params == AddParam(old(params), keyidx, arg);
      ok := true;
    }

    method Take(o: Opt) returns (ok: bool)
      requires Valid()
      modifies this, list
      ensures Valid() && forall n :: n in list ==> n in old(list) || fresh(n)
      ensures Step(old(Abs()), o) == if ok then Some(Abs()) else None
    {
      ok := true;
      match o
      case OptOperation(op) => operation := op;
      case OptRecip(_) => if operation == Encrypt { encerts := encerts + 1; }
      case OptSigner(f) => Signer(f);
      case OptInkey(f) => ok := Inkey(f);
      case OptKeyopt(t) => ok := Keyopt(t);
    }

    /** The checks after the loop, which append the last signer. */
    method AppendLast() returns (ok: bool)
      requires Valid()
      modifies this
      ensures Valid() && list == old(list)
      ensures Finish(old(Abs())) == if ok then Some(Abs()) else None
    {
      if !IsSigning(operation) {
        return false;
      }
      if keyfile.Some? && signerfile.None? {
        return false;
      }
      if signerfile.Some? {
        sksigners := sksigners + [signerfile.value];
        if keyfile.None? {
          keyfile := signerfile;
        }
        skkeys := skkeys + [keyfile.value];
      }
      if sksigners == [] {
        return false;
      }
      signerfile := None;
      keyfile := None;
      ok := true;
    }

    /** `for (kparam = key_first; kparam; kparam = kparam->next) if (kparam->idx == i) break;` */
    method Find(i: nat) returns (opts: Option<seq<string>>)
      requires Valid()
      ensures opts == FindParam(params, i)
    {
      var kparam := keyFirst;
      ghost var k := 0;
      assert params[0..] == params;
      while kparam != null
        invariant 0 <= k <= |list| && kparam == if k < |list| then list[k] else null
        invariant FindParam(params[k..], i) == FindParam(params, i)
        decreases |list| - k
      {
        assert params[k..][0] == Param(kparam.idx, kparam.param);
        if kparam.idx == i {
          return Some(kparam.param);
        }
        assert params[k..][1..] == params[k + 1..];
        kparam := kparam.next;
        k := k + 1;
      }
      opts := None;
    }

    /** The loop that adds the signers. */
    method AddSigners() returns (infos: seq<SignerInfo>)
      requires Valid()
      ensures infos == Consume(Abs())
    {
      infos := [];
      var i := 0;
      while i < |sksigners|
        invariant 0 <= i <= |sksigners| && infos == Consume(Abs())[..i]
      {
        var opts := Find(i);
        infos := infos + [SignerInfo(sksigners[i], skkeys[i], opts)];
        i := i + 1;
      }
    }
  }

  method SignWith(opts: seq<Opt>) returns (r: Option<seq<SignerInfo>>)
    ensures r == Signers(opts)
    ensures Filed(INITIAL, [], opts) ==> r == Meaning(opts)
    ensures r.Some? && !Filed(INITIAL, [], opts) ==> r != Meaning(opts)
  {
    if Filed(INITIAL, [], opts) { SignersMeanTheirGroups(opts); }
    if Signers(opts).Some? { AlignedIffFiled(opts); }
    var cms := new CmsOptions();
    var i := 0;
    assert opts[0..] == opts;
    while i < |opts|
      invariant 0 <= i <= |opts| && cms.Valid() && fresh(cms) && fresh(set n | n in cms.list)
      invariant Run(cms.Abs(), opts[i..]) == Run(INITIAL, opts)
    {
      assert opts[i..][1..] == opts[i + 1..];
      var ok := cms.Take(opts[i]);
      if !ok {
        return None;
      }
      i := i + 1;
    }
    var ok := cms.AppendLast();
    if !ok {
      return None;
    }
    var infos := cms.AddSigners();
    r := Some(infos);
  }
}

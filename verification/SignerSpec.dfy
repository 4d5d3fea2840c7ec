/** Pairing of `-signer`, `-inkey` and `-keyopt` in the `cms` command: the state machine
    over the options as values, and the groups of options it stands for. */
module SignerSpec {
  import opened Bytes

  datatype Operation = NoOperation | Encrypt | Sign | Resign | OtherOperation

  /** The options that matter here; the others leave this state alone. */
  datatype Opt =
    | OptOperation(operation: Operation)
    | OptSigner(file: string)
    | OptInkey(file: string)
    | OptRecip(file: string)
    | OptKeyopt(text: string)

  predicate IsSigning(op: Operation) { op == Sign || op == Resign }

  /** A `cms_key_param`: the options of the key with index `idx`. */
  datatype Param = Param(idx: int, opts: seq<string>)

  /** The variables of `cms_main`, with the list of parameters as a sequence. */
  datatype State = State(
    operation: Operation, recipients: nat,
    signerfile: Option<string>, keyfile: Option<string>,
    signers: seq<string>, keys: seq<string>, params: seq<Param>)

  const INITIAL: State := State(NoOperation, 0, None, None, [], [], [])

  function OrElse(a: Option<string>, b: string): string { if a.Some? then a.value else b }

  /** The index a `-keyopt` is filed under, or a negative number. */
  function KeyIndex(s: State): int {
    if s.operation == Encrypt then s.recipients - 1
    else |s.keys| - (if s.keyfile.Some? || s.signerfile.Some? then 0 else 1)
  }

  /** Only the newest entry is looked at before a new one is made. */
  function AddParam(params: seq<Param>, idx: int, text: string): seq<Param> {
    var n := |params|;
    if n == 0 || params[n - 1].idx != idx then params + [Param(idx, [text])]
    else params[n - 1 := Param(idx, params[n - 1].opts + [text])]
  }

  /** One option; None when the command gives up. */
  function Step(s: State, o: Opt): Option<State> {
    match o
    case OptOperation(op) => Some(s.(operation := op))
    case OptRecip(_) => Some(if s.operation == Encrypt then s.(recipients := s.recipients + 1) else s)
    case OptSigner(f) =>
      if s.signerfile.None? then Some(s.(signerfile := Some(f)))
      else
        var signer := s.signerfile.value;
        Some(s.(signers := s.signers + [signer], keys := s.keys + [OrElse(s.keyfile, signer)],
                keyfile := None, signerfile := Some(f)))
    case OptInkey(f) =>
      if s.keyfile.None? then Some(s.(keyfile := Some(f)))
      else if s.signerfile.None? then None
      else
        Some(s.(signers := s.signers + [s.signerfile.value], keys := s.keys + [s.keyfile.value],
                signerfile := None, keyfile := Some(f)))
    case OptKeyopt(t) =>
      if KeyIndex(s) < 0 then None else Some(s.(params := AddParam(s.params, KeyIndex(s), t)))
  }

  function Run(s: State, opts: seq<Opt>): (r: Option<State>)
    ensures r.Some? && |s.signers| == |s.keys| ==> |r.value.signers| == |r.value.keys|
    decreases |opts|
  {
    if opts == [] then Some(s)
    else
      var r := Step(s, opts[0]);
      if r.None? then None else Run(r.value, opts[1..])
  }

  /** The checks after the options: a signing operation, and the last signer appended. */
  function Finish(s: State): Option<State> {
    if !IsSigning(s.operation) then None
    else if s.keyfile.Some? && s.signerfile.None? then None
    else
      var t := if s.signerfile.None? then s
               else s.(signers := s.signers + [s.signerfile.value],
                       keys := s.keys + [OrElse(s.keyfile, s.signerfile.value)],
                       signerfile := None, keyfile := None);
      if t.signers == [] then None else Some(t)
  }

  /** One signer that is added to the message. */
  datatype SignerInfo = SignerInfo(cert: string, key: string, opts: Option<seq<string>>)

  /** The first entry with index `i`. */
  function FindParam(params: seq<Param>, i: nat): Option<seq<string>> {
    if params == [] then None
    else if params[0].idx == i then Some(params[0].opts)
    else FindParam(params[1..], i)
  }

  function Consume(s: State): seq<SignerInfo>
    requires |s.signers| == |s.keys|
  {
    seq(|s.signers|, i requires 0 <= i < |s.signers| => SignerInfo(s.signers[i], s.keys[i], FindParam(s.params, i)))
  }

  // ---------- groups ----------

  /** What the user says about one signer. */
  datatype Group = Group(signer: Option<string>, key: Option<string>, opts: seq<string>)

  /** An option joins the open (last) group if that still lacks such an option, and opens a
      new group otherwise; a `-keyopt` belongs to the open group. */
  function Join(groups: seq<Group>, o: Opt): Option<seq<Group>> {
    var n := |groups|;
    match o
    case OptOperation(_) => Some(groups)
    case OptRecip(_) => Some(groups)
    case OptSigner(f) =>
      Some(if n == 0 || groups[n - 1].signer.Some? then groups + [Group(Some(f), None, [])]
           else groups[n - 1 := groups[n - 1].(signer := Some(f))])
    case OptInkey(f) =>
      if n > 0 && groups[n - 1].key.None? then Some(groups[n - 1 := groups[n - 1].(key := Some(f))])
      else if n > 0 && groups[n - 1].signer.None? then None
      else Some(groups + [Group(None, Some(f), [])])
    case OptKeyopt(t) =>
      if n == 0 then None
      else Some(groups[n - 1 := groups[n - 1].(opts := groups[n - 1].opts + [t])])
  }

  function JoinAll(groups: seq<Group>, opts: seq<Opt>): Option<seq<Group>>
    decreases |opts|
  {
    if opts == [] then Some(groups)
    else
      var r := Join(groups, opts[0]);
      if r.None? then None else JoinAll(r.value, opts[1..])
  }

  function FinalOperation(op: Operation, opts: seq<Opt>): Operation
    decreases |opts|
  {
    if opts == [] then op
    else FinalOperation(if opts[0].OptOperation? then opts[0].operation else op, opts[1..])
  }

  function InfoOf(g: Group): SignerInfo
    requires g.signer.Some?
  {
    SignerInfo(g.signer.value, OrElse(g.key, g.signer.value), if g.opts == [] then None else Some(g.opts))
  }

  /** Every group is one signer, which signs with its own key or else with itself, under
      exactly the options of its group. */
  function InfosOf(groups: seq<Group>): seq<SignerInfo>
    requires forall i :: 0 <= i < |groups| ==> groups[i].signer.Some?
  {
    seq(|groups|, i requires 0 <= i < |groups| => InfoOf(groups[i]))
  }

  /** What a signing command line means. */
  function Meaning(opts: seq<Opt>): Option<seq<SignerInfo>> {
    var r := JoinAll([], opts);
    if !IsSigning(FinalOperation(NoOperation, opts)) || r.None? || r.value == [] then None
    else if exists i :: 0 <= i < |r.value| && r.value[i].signer.None? then None
    else Some(InfosOf(r.value))
  }

  /** A `-keyopt` is filed under the group that is open. */
  predicate Fits(s: State, groups: seq<Group>) { s.operation != Encrypt || s.recipients == |groups| }

  /** Every `-keyopt` of a run is filed under the group that is open when it is given. */
  predicate Filed(s: State, groups: seq<Group>, opts: seq<Opt>)
    decreases |opts|
  {
    opts != [] ==>
      var t, after := Step(s, opts[0]), Join(groups, opts[0]);
      && (opts[0].OptKeyopt? ==> Fits(s, groups))
      && (t.Some? && after.Some? ==> Filed(t.value, after.value, opts[1..]))
  }

  // ---------- the machine keeps the groups ----------

  /** The parameters that belong to a list of groups. */
  function ParamsOf(groups: seq<Group>): seq<Param> {
    var n := |groups|;
    if n == 0 then []
    else ParamsOf(groups[..n - 1]) + if groups[n - 1].opts == [] then [] else [Param(n - 1, groups[n - 1].opts)]
  }

  /** All groups but the last are closed: they have a signer, and are on the two lists. */
  predicate Tracks(s: State, groups: seq<Group>) {
    var n := |groups|;
    if n == 0 then s.signerfile.None? && s.keyfile.None? && s.signers == [] && s.keys == []
    else
      && |s.signers| == |s.keys| == n - 1
      && s.signerfile == groups[n - 1].signer && s.keyfile == groups[n - 1].key
      && (groups[n - 1].signer.Some? || groups[n - 1].key.Some?)
      && forall i :: 0 <= i < n - 1 ==> Closed(s, groups[i], i)
  }

  predicate Represents(s: State, groups: seq<Group>) { s.params == ParamsOf(groups) && Tracks(s, groups) }

  predicate Closed(s: State, g: Group, i: nat)
    requires i < |s.signers| == |s.keys|
  {
    g.signer.Some? && s.signers[i] == g.signer.value && s.keys[i] == OrElse(g.key, g.signer.value)
  }

  /** Indices grow strictly along the list and stay below the number of groups. */
  lemma {:induction false} ParamsIncrease(groups: seq<Group>)
    ensures forall j {:trigger ParamsOf(groups)[j]} ::
              0 <= j < |ParamsOf(groups)| ==> 0 <= ParamsOf(groups)[j].idx < |groups|
    ensures forall j, k :: 0 <= j < k < |ParamsOf(groups)| ==> ParamsOf(groups)[j].idx < ParamsOf(groups)[k].idx
  {
    if groups != [] { ParamsIncrease(groups[..|groups| - 1]); }
  }

  lemma {:induction false} FindParamAppend(params: seq<Param>, p: Param, i: nat)
    ensures FindParam(params + [p], i)
         == if FindParam(params, i).Some? then FindParam(params, i) else if p.idx == i then Some(p.opts) else None
  {
    if params == [] {
      assert params + [p] == [p];
    } else {
      assert (params + [p])[1..] == params[1..] + [p];
      FindParamAppend(params[1..], p, i);
    }
  }

  /** Looking an index up finds the options of that group. */
  lemma {:induction false} FindParamOfGroup(groups: seq<Group>, i: nat)
    ensures FindParam(ParamsOf(groups), i)
         == if i < |groups| && groups[i].opts != [] then Some(groups[i].opts) else None
  {
    var n := |groups|;
    if n > 0 {
      var front := groups[..n - 1];
      FindParamOfGroup(front, i);
      if groups[n - 1].opts != [] {
        FindParamAppend(ParamsOf(front), Param(n - 1, groups[n - 1].opts), i);
      } else {
        assert ParamsOf(groups) == ParamsOf(front);
      }
    }
  }

  lemma ParamsOfKeyopt(groups: seq<Group>, t: string)
    requires groups != []
    ensures var n := |groups|;
            ParamsOf(groups[n - 1 := groups[n - 1].(opts := groups[n - 1].opts + [t])])
            == AddParam(ParamsOf(groups), n - 1, t)
  {
    var n := |groups|;
    var last, front := groups[n - 1], groups[..n - 1];
    var after := groups[n - 1 := last.(opts := last.opts + [t])];
    assert after[..n - 1] == front;
    ParamsIncrease(front);
    var p := ParamsOf(front);
    assert ParamsOf(after) == p + [Param(n - 1, last.opts + [t])];
    if last.opts == [] {
      assert [] + [t] == [t];
      assert ParamsOf(groups) == p;
    } else {
      assert ParamsOf(groups) == p + [Param(n - 1, last.opts)];
    }
  }

  /** One option: whatever is filed where, the groups are tracked. */
  lemma StepTracks(s: State, groups: seq<Group>, o: Opt)
    requires Tracks(s, groups) && Step(s, o).Some? && Join(groups, o).Some?
    ensures Tracks(Step(s, o).value, Join(groups, o).value)
    ensures Step(s, o).value.operation == if o.OptOperation? then o.operation else s.operation
  {
    var t, after := Step(s, o).value, Join(groups, o).value;
    if groups != [] {
      ClosedStays(s, groups, t, after);
      if |after| > |groups| { assert Closed(t, after[|groups| - 1], |groups| - 1); }
    }
  }

  /** Closed groups stay closed while the lists only grow. */
  lemma ClosedStays(s: State, groups: seq<Group>, t: State, after: seq<Group>)
    requires Tracks(s, groups) && s.signers <= t.signers && s.keys <= t.keys && |t.signers| == |t.keys|
    requires groups != [] ==> after != [] && groups[..|groups| - 1] <= after
    ensures forall i :: 0 <= i < |groups| - 1 ==> Closed(t, after[i], i)
  {
  }

  lemma ParamsOfMore(groups: seq<Group>, g: Group)
    requires g.opts == []
    ensures ParamsOf(groups + [g]) == ParamsOf(groups)
  {
  }

  lemma ParamsOfSame(groups: seq<Group>, g: Group)
    requires groups != [] && g.opts == groups[|groups| - 1].opts
    ensures ParamsOf(groups[|groups| - 1 := g]) == ParamsOf(groups)
  {
    assert groups[|groups| - 1 := g][..|groups| - 1] == groups[..|groups| - 1];
  }

  /** Options other than `-keyopt` leave the parameters as they are, for both. */
  lemma ParamsStay(groups: seq<Group>, o: Opt)
    requires !o.OptKeyopt? && Join(groups, o).Some?
    ensures ParamsOf(Join(groups, o).value) == ParamsOf(groups)
  {
    var n := |groups|;
    match o
    case OptOperation(_) =>
    case OptRecip(_) =>
    case OptSigner(f) =>
      ParamsOfMore(groups, Group(Some(f), None, []));
      if n > 0 { ParamsOfSame(groups, groups[n - 1].(signer := Some(f))); }
    case OptInkey(f) =>
      ParamsOfMore(groups, Group(None, Some(f), []));
      if n > 0 { ParamsOfSame(groups, groups[n - 1].(key := Some(f))); }
  }

  /** The machine gives up exactly where the groups cannot go on. */
  lemma FailsWithGroups(s: State, groups: seq<Group>, o: Opt)
    requires Tracks(s, groups) && (o.OptKeyopt? ==> Fits(s, groups))
    ensures Step(s, o).Some? <==> Join(groups, o).Some?
  {
  }

  /** One option: the machine fails exactly when the groups do, and follows them, as long as
      a `-keyopt` is filed under the open group. */
  lemma StepKeepsGroups(s: State, groups: seq<Group>, o: Opt)
    requires Represents(s, groups) && (o.OptKeyopt? ==> Fits(s, groups))
    ensures Step(s, o).Some? <==> Join(groups, o).Some?
    ensures Step(s, o).Some? ==> Represents(Step(s, o).value, Join(groups, o).value)
    ensures Step(s, o).Some? ==> Step(s, o).value.operation == if o.OptOperation? then o.operation else s.operation
  {
    FailsWithGroups(s, groups, o);
    if Step(s, o).Some? {
      StepTracks(s, groups, o);
      if o.OptKeyopt? { ParamsOfKeyopt(groups, o.text); } else { ParamsStay(groups, o); }
    }
  }

  /** Exactly when a `-keyopt` is filed under the group that is open: not while encrypting,
      or while there happen to be as many recipients as groups. */
  lemma KeyoptFiledUnderOpenGroup(s: State, groups: seq<Group>)
    requires Tracks(s, groups)
    ensures KeyIndex(s) == |groups| - 1 <==> Fits(s, groups)
  {
  }

  lemma {:induction false} RunKeepsGroups(s: State, groups: seq<Group>, opts: seq<Opt>)
    requires Represents(s, groups) && Filed(s, groups, opts)
    ensures Run(s, opts).Some? <==> JoinAll(groups, opts).Some?
    ensures Run(s, opts).Some? ==>
      && Represents(Run(s, opts).value, JoinAll(groups, opts).value)
      && Run(s, opts).value.operation == FinalOperation(s.operation, opts)
    decreases |opts|
  {
    if opts != [] {
      StepKeepsGroups(s, groups, opts[0]);
      if Step(s, opts[0]).Some? {
        RunKeepsGroups(Step(s, opts[0]).value, Join(groups, opts[0]).value, opts[1..]);
      }
    }
  }

  /** What the command does with a whole option sequence. */
  function Signers(opts: seq<Opt>): Option<seq<SignerInfo>> {
    var r := Run(INITIAL, opts);
    if r.None? || Finish(r.value).None? then None
    else Some(Consume(Finish(r.value).value))
  }

  lemma FinishFollowsGroups(s: State, groups: seq<Group>)
    requires Tracks(s, groups)
    ensures Finish(s).Some? <==>
              IsSigning(s.operation) && groups != [] && forall i :: 0 <= i < |groups| ==> groups[i].signer.Some?
    ensures Finish(s).Some? ==>
      var t := Finish(s).value;
      && |t.signers| == |t.keys| == |groups| && t.params == s.params
      && forall i :: 0 <= i < |groups| ==> Closed(t, groups[i], i)
  {
  }

  /** The main result: signers, keys and key options stay aligned for every sequence of
      options in which each `-keyopt` is filed under the open group. */
  lemma SignersMeanTheirGroups(opts: seq<Opt>)
    requires Filed(INITIAL, [], opts)
    ensures Signers(opts) == Meaning(opts)
  {
    RunKeepsGroups(INITIAL, [], opts);
    var r := Run(INITIAL, opts);
    if r.Some? {
      var groups := JoinAll([], opts).value;
      FinishFollowsGroups(r.value, groups);
      if Finish(r.value).Some? {
        var t := Finish(r.value).value;
        forall i: nat | i < |groups|
          ensures Consume(t)[i] == InfosOf(groups)[i]
        {
          assert Closed(t, groups[i], i);
          FindParamOfGroup(groups, i);
        }
        assert Consume(t) == InfosOf(groups);
      }
    }
  }

  /** Key indices grow strictly on every such run, so each index has one entry. */
  lemma KeyIndicesIncrease(opts: seq<Opt>)
    requires Filed(INITIAL, [], opts) && Run(INITIAL, opts).Some?
    ensures var params := Run(INITIAL, opts).value.params;
            forall j, k :: 0 <= j < k < |params| ==> params[j].idx < params[k].idx
  {
    RunKeepsGroups(INITIAL, [], opts);
    ParamsIncrease(JoinAll([], opts).value);
  }

  /** The condition is not always met: a `-keyopt` given for a recipient of an encryption, followed
      by a change of mind to signing, is applied to a signer that is named only later. */
  lemma KeyoptWhileEncryptingStrays()
    ensures var opts := [OptOperation(Encrypt), OptRecip("r"), OptKeyopt("k"), OptOperation(Sign), OptSigner("s")];
            && Signers(opts) == Some([SignerInfo("s", "s", Some(["k"]))])
            && Meaning(opts) == None
  {
    var s1 := State(Encrypt, 0, None, None, [], [], []);
    var s2 := s1.(recipients := 1);
    var s3 := s2.(params := [Param(0, ["k"])]);
    var s4 := s3.(operation := Sign);
    var s5 := s4.(signerfile := Some("s"));
    var o1, o2, o3, o4, o5 := OptOperation(Encrypt), OptRecip("r"), OptKeyopt("k"), OptOperation(Sign), OptSigner("s");
    assert [o1, o2, o3, o4, o5][1..] == [o2, o3, o4, o5] && [o2, o3, o4, o5][1..] == [o3, o4, o5];
    assert [o3, o4, o5][1..] == [o4, o5] && [o4, o5][1..] == [o5] && [o5][1..] == [];
    assert Step(INITIAL, o1) == Some(s1) && Step(s1, o2) == Some(s2) && Step(s2, o3).value.params == s3.params;
    assert Run(s5, []) == Some(s5) && Run(s4, [o5]) == Some(s5) && Run(s3, [o4, o5]) == Some(s5);
    assert Run(s2, [o3, o4, o5]) == Some(s5) && Run(s1, [o2, o3, o4, o5]) == Some(s5);
    assert Finish(s5).value.signers == ["s"];
    assert Consume(Finish(s5).value) == [SignerInfo("s", "s", Some(["k"]))];
    assert JoinAll([], [o3, o4, o5]) == None && JoinAll([], [o2, o3, o4, o5]) == None;
  }
}

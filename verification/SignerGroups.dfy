/** What a signing command line means, read off the options themselves: it falls into segments,
    and each segment is one signer. */
module SignerGroups {
  import opened Bytes
  import opened SignerSpec

  function SignersIn(opts: seq<Opt>): seq<string> {
    if opts == [] then []
    else
      var n := |opts| - 1;
      SignersIn(opts[..n]) + if opts[n].OptSigner? then [opts[n].file] else []
  }

  function KeysIn(opts: seq<Opt>): seq<string> {
    if opts == [] then []
    else
      var n := |opts| - 1;
      KeysIn(opts[..n]) + if opts[n].OptInkey? then [opts[n].file] else []
  }

  function TextsIn(opts: seq<Opt>): seq<string> {
    if opts == [] then []
    else
      var n := |opts| - 1;
      TextsIn(opts[..n]) + if opts[n].OptKeyopt? then [opts[n].text] else []
  }

  /** The segments one after the other. */
  function Flatten(segments: seq<seq<Opt>>): seq<Opt> {
    if segments == [] then []
    else Flatten(segments[..|segments| - 1]) + segments[|segments| - 1]
  }

  function AsSeq(o: Option<string>): seq<string> { if o.Some? then [o.value] else [] }

  /** The group has the one signer and the one key of the segment, if there is one, and all its
      key options in order. */
  predicate IsGroupOf(g: Group, segment: seq<Opt>) {
    && segment != []
    && SignersIn(segment) == AsSeq(g.signer) && KeysIn(segment) == AsSeq(g.key) && TextsIn(segment) == g.opts
  }

  /** A segment begins where a second signer or a second key would come into the one before. */
  predicate Overflows(o: Opt, before: seq<Opt>) {
    (o.OptSigner? && SignersIn(before) != []) || (o.OptInkey? && KeysIn(before) != [])
  }

  predicate OpensAt(segments: seq<seq<Opt>>, i: nat)
    requires 0 < i < |segments|
  {
    segments[i] != [] && Overflows(segments[i][0], segments[i - 1])
  }

  predicate AreOther(opts: seq<Opt>) {
    forall k :: 0 <= k < |opts| ==> opts[k].OptOperation? || opts[k].OptRecip?
  }

  predicate AllGroups(groups: seq<Group>, segments: seq<seq<Opt>>) {
    |segments| == |groups| && forall i: nat :: i < |groups| ==> IsGroupOf(groups[i], segments[i])
  }

  predicate AllOpen(segments: seq<seq<Opt>>) {
    forall i: nat :: 0 < i < |segments| ==> OpensAt(segments, i)
  }

  /** Behind options of other kinds, the command line is these segments, one for each group. */
  predicate AreSegments(opts: seq<Opt>, groups: seq<Group>, head: seq<Opt>, segments: seq<seq<Opt>>) {
    opts == head + Flatten(segments) && AreOther(head) && AllGroups(groups, segments) && AllOpen(segments)
  }

  lemma {:induction false} JoinAllAppend(groups: seq<Group>, opts: seq<Opt>, o: Opt)
    ensures JoinAll(groups, opts + [o])
         == var before := JoinAll(groups, opts); if before.None? then None else Join(before.value, o)
    decreases |opts|
  {
    if opts == [] {
      assert opts + [o] == [o] && [o][1..] == [];
    } else {
      assert (opts + [o])[1..] == opts[1..] + [o];
      var r := Join(groups, opts[0]);
      if r.Some? { JoinAllAppend(r.value, opts[1..], o); }
    }
  }

  lemma {:induction false} InOneMore(opts: seq<Opt>, o: Opt)
    ensures SignersIn(opts + [o]) == SignersIn(opts) + if o.OptSigner? then [o.file] else []
    ensures KeysIn(opts + [o]) == KeysIn(opts) + if o.OptInkey? then [o.file] else []
    ensures TextsIn(opts + [o]) == TextsIn(opts) + if o.OptKeyopt? then [o.text] else []
  {
    assert (opts + [o])[..|opts|] == opts;
  }

  lemma {:induction false} FlattenLast(segments: seq<seq<Opt>>, o: Opt)
    requires segments != []
    ensures var n := |segments| - 1; Flatten(segments[n := segments[n] + [o]]) == Flatten(segments) + [o]
  {
    var n := |segments| - 1;
    var last, front := segments[n], segments[..n];
    assert segments[n := last + [o]][..n] == front;
    assert Flatten(front) + (last + [o]) == Flatten(front) + last + [o];
  }

  lemma {:induction false} OpenStays(segments: seq<seq<Opt>>, o: Opt)
    requires segments != [] && segments[|segments| - 1] != [] && AllOpen(segments)
    ensures var n := |segments| - 1; AllOpen(segments[n := segments[n] + [o]])
  {
    var n := |segments| - 1;
    var more := segments[n := segments[n] + [o]];
    forall i: nat | 0 < i < |more|
      ensures OpensAt(more, i)
    {
      assert OpensAt(segments, i);
      assert more[i - 1] == segments[i - 1] && more[i][0] == segments[i][0];
    }
  }

  lemma {:induction false} Together(a: seq<Opt>, b: seq<Opt>, c: seq<Opt>)
    ensures a + (b + c) == a + b + c
  {
  }

  /** An option that goes into the last segment. */
  lemma {:induction false} SegmentsStay(opts: seq<Opt>, groups: seq<Group>, head: seq<Opt>, segments: seq<seq<Opt>>,
                                        o: Opt, g: Group)
    requires AreSegments(opts, groups, head, segments) && groups != []
    requires IsGroupOf(g, segments[|groups| - 1] + [o])
    ensures var n := |groups| - 1;
            AreSegments(opts + [o], groups[n := g], head, segments[n := segments[n] + [o]])
  {
    var n := |groups| - 1;
    assert IsGroupOf(groups[n], segments[n]);
    FlattenLast(segments, o);
    Together(head, Flatten(segments), [o]);
    OpenStays(segments, o);
  }

  lemma {:induction false} OneMoreOpen(segments: seq<seq<Opt>>, o: Opt)
    requires AllOpen(segments) && (segments != [] ==> Overflows(o, segments[|segments| - 1]))
    ensures AllOpen(segments + [[o]]) && Flatten(segments + [[o]]) == Flatten(segments) + [o]
  {
    var more := segments + [[o]];
    assert more[..|segments|] == segments;
    forall i: nat | 0 < i < |more|
      ensures OpensAt(more, i)
    {
      if i < |segments| {
        assert OpensAt(segments, i);
        assert more[i - 1] == segments[i - 1] && more[i] == segments[i];
      }
    }
  }

  /** An option that opens a segment of its own. */
  lemma {:induction false} SegmentAdded(opts: seq<Opt>, groups: seq<Group>, head: seq<Opt>, segments: seq<seq<Opt>>,
                                        o: Opt, g: Group)
    requires AreSegments(opts, groups, head, segments) && IsGroupOf(g, [o])
    requires groups != [] ==> Overflows(o, segments[|groups| - 1])
    ensures AreSegments(opts + [o], groups + [g], head, segments + [[o]])
  {
    OneMoreOpen(segments, o);
    Together(head, Flatten(segments), [o]);
  }

  lemma {:induction false} OnlyHead(opts: seq<Opt>, groups: seq<Group>, head: seq<Opt>, segments: seq<seq<Opt>>, o: Opt)
    requires AreSegments(opts, groups, head, segments) && groups == [] && (o.OptOperation? || o.OptRecip?)
    ensures AreSegments(opts + [o], [], opts + [o], [])
  {
    assert segments == [] && Flatten(segments) == [] && opts == head;
    assert opts + [o] + [] == opts + [o];
  }

  /** The groups of a command line are its segments. */
  lemma {:induction false} GroupsAreSegments(opts: seq<Opt>) returns (head: seq<Opt>, segments: seq<seq<Opt>>)
    requires JoinAll([], opts).Some?
    ensures AreSegments(opts, JoinAll([], opts).value, head, segments)
  {
    head, segments := [], [];
    if opts != [] {
      var m := |opts| - 1;
      var front, o := opts[..m], opts[m];
      assert opts == front + [o];
      JoinAllAppend([], front, o);
      head, segments := GroupsAreSegments(front);
      head, segments := OneMoreOption(front, JoinAll([], front).value, head, segments, o);
    }
  }

  /** What one option makes of the last group and its segment. */
  lemma {:induction false} JoinInSegment(groups: seq<Group>, segment: seq<Opt>, o: Opt)
    requires Join(groups, o).Some? && (groups != [] ==> IsGroupOf(groups[|groups| - 1], segment))
    ensures var n, joined := |groups|, Join(groups, o).value;
            if |joined| > n then
              joined == groups + [joined[n]] && IsGroupOf(joined[n], [o]) && (n > 0 ==> Overflows(o, segment))
            else if n == 0 then joined == [] && (o.OptOperation? || o.OptRecip?)
            else joined == groups[n - 1 := joined[n - 1]] && IsGroupOf(joined[n - 1], segment + [o])
  {
    InOneMore([], o);
    assert [] + [o] == [o];
    InOneMore(segment, o);
  }

  lemma {:induction false} OneMoreOption(opts: seq<Opt>, groups: seq<Group>, before: seq<Opt>,
                                         segments: seq<seq<Opt>>, o: Opt)
    returns (head: seq<Opt>, after: seq<seq<Opt>>)
    requires AreSegments(opts, groups, before, segments) && Join(groups, o).Some?
    ensures AreSegments(opts + [o], Join(groups, o).value, head, after)
  {
    var n, joined := |groups|, Join(groups, o).value;
    head := before;
    JoinInSegment(groups, if n > 0 then segments[n - 1] else [], o);
    if |joined| > n {
      SegmentAdded(opts, groups, before, segments, o, joined[n]);
      after := segments + [[o]];
    } else if n == 0 {
      OnlyHead(opts, groups, before, segments, o);
      head, after := opts + [o], [];
    } else {
      SegmentsStay(opts, groups, before, segments, o, joined[n - 1]);
      after := segments[n - 1 := segments[n - 1] + [o]];
    }
  }

  /** When a command line has no groups: exactly where a key option comes before any signer or
      key, or a second key into a segment without a signer. */
  lemma {:induction false} FailsExactly(opts: seq<Opt>, o: Opt) returns (head: seq<Opt>, segments: seq<seq<Opt>>)
    requires JoinAll([], opts).Some?
    ensures AreSegments(opts, JoinAll([], opts).value, head, segments)
    ensures JoinAll([], opts + [o]).None? <==>
              || (o.OptKeyopt? && segments == [])
              || (o.OptInkey? && segments != [] &&
                  var last := segments[|segments| - 1]; KeysIn(last) != [] && SignersIn(last) == [])
  {
    head, segments := GroupsAreSegments(opts);
    JoinAllAppend([], opts, o);
    var groups := JoinAll([], opts).value;
    if groups != [] { assert IsGroupOf(groups[|groups| - 1], segments[|groups| - 1]); }
  }

  // ---------- the signers ----------

  predicate NoOperationIn(opts: seq<Opt>) { forall j :: 0 <= j < |opts| ==> !opts[j].OptOperation? }

  /** The operation that was given last. */
  predicate IsLastOperation(opts: seq<Opt>, op: Operation) {
    if exists k :: 0 <= k < |opts| && opts[k].OptOperation? then
      exists k :: 0 <= k < |opts| && opts[k] == OptOperation(op) && NoOperationIn(opts[k + 1..])
    else op == NoOperation
  }

  lemma {:induction false} FinalOperationAppend(op: Operation, opts: seq<Opt>, o: Opt)
    ensures FinalOperation(op, opts + [o]) == if o.OptOperation? then o.operation else FinalOperation(op, opts)
    decreases |opts|
  {
    if opts == [] {
      assert opts + [o] == [o] && [o][1..] == [];
    } else {
      assert (opts + [o])[1..] == opts[1..] + [o];
      FinalOperationAppend(if opts[0].OptOperation? then opts[0].operation else op, opts[1..], o);
    }
  }

  lemma {:induction false} LastOperationCounts(opts: seq<Opt>)
    ensures IsLastOperation(opts, FinalOperation(NoOperation, opts))
  {
    if opts != [] {
      var n := |opts| - 1;
      var front, o := opts[..n], opts[n];
      LastOperationCounts(front);
      assert opts == front + [o];
      FinalOperationAppend(NoOperation, front, o);
      var op := FinalOperation(NoOperation, opts);
      if o.OptOperation? {
        assert opts[n] == OptOperation(op) && NoOperationIn(opts[n + 1..]);
      } else if k :| 0 <= k < n && front[k] == OptOperation(op) && NoOperationIn(front[k + 1..]) {
        assert opts[k + 1..] == front[k + 1..] + [o];
        assert opts[k] == OptOperation(op) && NoOperationIn(opts[k + 1..]);
      }
    }
  }

  /** One signer of the message, from its segment: the signer's file, its key or else the same
      file, and its key options if there are any. */
  predicate IsSignerOf(info: SignerInfo, segment: seq<Opt>) {
    && SignersIn(segment) == [info.cert]
    && (if KeysIn(segment) == [] then info.key == info.cert else KeysIn(segment) == [info.key])
    && info.opts == if TextsIn(segment) == [] then None else Some(TextsIn(segment))
  }

  predicate AllHaveSigners(segments: seq<seq<Opt>>) {
    forall i: nat :: i < |segments| ==> SignersIn(segments[i]) != []
  }

  predicate AreSignersOf(infos: seq<SignerInfo>, segments: seq<seq<Opt>>) {
    |infos| == |segments| && forall i: nat :: i < |segments| ==> IsSignerOf(infos[i], segments[i])
  }

  predicate AllSigned(groups: seq<Group>) { forall i: nat :: i < |groups| ==> groups[i].signer.Some? }

  lemma {:induction false} MeaningOfGroups(opts: seq<Opt>)
    requires JoinAll([], opts).Some?
    ensures var groups, op := JoinAll([], opts).value, FinalOperation(NoOperation, opts);
            && (Meaning(opts).Some? <==> (op == Sign || op == Resign) && groups != [] && AllSigned(groups))
            && (AllSigned(groups) && Meaning(opts).Some? ==> Meaning(opts).value == InfosOf(groups))
  {
  }

  lemma {:induction false} SignersOfSegments(groups: seq<Group>, segments: seq<seq<Opt>>)
    requires AllGroups(groups, segments)
    ensures AllSigned(groups) <==> AllHaveSigners(segments)
    ensures AllSigned(groups) ==> AreSignersOf(InfosOf(groups), segments)
  {
    forall i: nat | i < |groups|
      ensures groups[i].signer.Some? <==> SignersIn(segments[i]) != []
      ensures groups[i].signer.Some? ==> IsSignerOf(InfoOf(groups[i]), segments[i])
    {
      assert IsGroupOf(groups[i], segments[i]);
    }
  }

  /** What a command line means: nothing unless the last operation is to sign or to resign, and
      every segment has a signer; otherwise one signer for each segment, in order. */
  lemma {:induction false} MeaningExactly(opts: seq<Opt>) returns (head: seq<Opt>, segments: seq<seq<Opt>>)
    requires JoinAll([], opts).Some?
    ensures var op := FinalOperation(NoOperation, opts);
            && AreSegments(opts, JoinAll([], opts).value, head, segments) && IsLastOperation(opts, op)
            && (Meaning(opts).Some? <==> (op == Sign || op == Resign) && segments != [] && AllHaveSigners(segments))
            && (Meaning(opts).Some? ==> AreSignersOf(Meaning(opts).value, segments))
  {
    head, segments := GroupsAreSegments(opts);
    LastOperationCounts(opts);
    SignersOfSegments(JoinAll([], opts).value, segments);
    MeaningOfGroups(opts);
  }

  // ---------- recipients ----------

  /** How many recipients were given while the operation was to encrypt. */
  function EncryptRecipients(opts: seq<Opt>): nat {
    if opts == [] then 0
    else
      var n := |opts| - 1;
      EncryptRecipients(opts[..n])
      + if opts[n].OptRecip? && FinalOperation(NoOperation, opts[..n]) == Encrypt then 1 else 0
  }

  lemma {:induction false} RunAppend(s: State, opts: seq<Opt>, o: Opt)
    ensures Run(s, opts + [o]) == var before := Run(s, opts); if before.None? then None else Step(before.value, o)
    decreases |opts|
  {
    if opts == [] {
      assert opts + [o] == [o] && [o][1..] == [];
    } else {
      assert (opts + [o])[1..] == opts[1..] + [o];
      var r := Step(s, opts[0]);
      if r.Some? { RunAppend(r.value, opts[1..], o); }
    }
  }

  /** The machine knows the operation given last and the recipients of encryptions; a key option
      under `-encrypt` is filed under the newest of these. */
  lemma {:induction false} RecipientsAreCounted(opts: seq<Opt>)
    requires Run(INITIAL, opts).Some?
    ensures var s := Run(INITIAL, opts).value;
            && s.operation == FinalOperation(NoOperation, opts) && s.recipients == EncryptRecipients(opts)
            && (s.operation == Encrypt ==> KeyIndex(s) == EncryptRecipients(opts) - 1)
  {
    if opts != [] {
      var n := |opts| - 1;
      var front, o := opts[..n], opts[n];
      assert opts == front + [o];
      RunAppend(INITIAL, front, o);
      RecipientsAreCounted(front);
      FinalOperationAppend(NoOperation, front, o);
    }
  }

  // ---------- key options, wherever they are filed ----------

  /** One key option, with the index of the key it is for. */
  datatype Filing = Filing(idx: int, text: string)

  /** The other options: key options do not change what the groups are. */
  function WithoutKeyopts(opts: seq<Opt>): seq<Opt> {
    if opts == [] then []
    else
      var n := |opts| - 1;
      WithoutKeyopts(opts[..n]) + if opts[n].OptKeyopt? then [] else [opts[n]]
  }

  /** The index that a key option gets: the newest recipient of an encryption, or the group that
      is open. */
  function IndexBehind(opts: seq<Opt>): int {
    if FinalOperation(NoOperation, opts) == Encrypt then EncryptRecipients(opts) - 1
    else
      var groups := JoinAll([], WithoutKeyopts(opts));
      if groups.Some? then |groups.value| - 1 else -1
  }

  function FilingsOf(opts: seq<Opt>): seq<Filing> {
    if opts == [] then []
    else
      var n := |opts| - 1;
      FilingsOf(opts[..n]) + if opts[n].OptKeyopt? then [Filing(IndexBehind(opts[..n]), opts[n].text)] else []
  }

  lemma {:induction false} GroupsWithoutKeyopts(opts: seq<Opt>)
    requires Run(INITIAL, opts).Some?
    ensures JoinAll([], WithoutKeyopts(opts)).Some?
    ensures Tracks(Run(INITIAL, opts).value, JoinAll([], WithoutKeyopts(opts)).value)
  {
    if opts != [] {
      var n := |opts| - 1;
      var front, o := opts[..n], opts[n];
      assert opts == front + [o];
      RunAppend(INITIAL, front, o);
      GroupsWithoutKeyopts(front);
      var s, groups := Run(INITIAL, front).value, JoinAll([], WithoutKeyopts(front)).value;
      if !o.OptKeyopt? {
        JoinAllAppend([], WithoutKeyopts(front), o);
        FailsWithGroups(s, groups, o);
        StepTracks(s, groups, o);
      } else {
        assert WithoutKeyopts(opts) == WithoutKeyopts(front);
        assert forall i :: 0 <= i < |groups| - 1 ==> Closed(s, groups[i], i);
      }
    }
  }

  lemma {:induction false} IndexIs(opts: seq<Opt>)
    requires Run(INITIAL, opts).Some?
    ensures KeyIndex(Run(INITIAL, opts).value) == IndexBehind(opts)
  {
    RecipientsAreCounted(opts);
    GroupsWithoutKeyopts(opts);
  }

  /** The list of parameters, option by option. */
  function Unrolled(params: seq<Param>): seq<Filing> {
    if params == [] then []
    else
      var n := |params| - 1;
      Unrolled(params[..n]) + Each(params[n].idx, params[n].opts)
  }

  function Each(idx: int, texts: seq<string>): (fs: seq<Filing>)
    ensures |fs| == |texts|
  {
    seq(|texts|, k requires 0 <= k < |texts| => Filing(idx, texts[k]))
  }

  /** The entries are the longest runs of options with the same index, in order. */
  predicate AreRuns(params: seq<Param>, filings: seq<Filing>) {
    && Unrolled(params) == filings
    && (forall k :: 0 <= k < |params| ==> params[k].opts != [])
    && (forall k :: 0 < k < |params| ==> params[k - 1].idx != params[k].idx)
  }

  lemma {:induction false} RunsGrow(params: seq<Param>, filings: seq<Filing>, idx: int, t: string)
    requires AreRuns(params, filings)
    ensures AreRuns(AddParam(params, idx, t), filings + [Filing(idx, t)])
  {
    var n, after := |params|, AddParam(params, idx, t);
    if n == 0 || params[n - 1].idx != idx {
      assert after[..n] == params && Each(idx, [t]) == [Filing(idx, t)];
    } else {
      assert after[..n - 1] == params[..n - 1];
      var opts := params[n - 1].opts;
      assert Each(idx, opts + [t]) == Each(idx, opts) + [Filing(idx, t)];
      assert Unrolled(params[..n - 1]) + (Each(idx, opts) + [Filing(idx, t)]) == filings + [Filing(idx, t)];
    }
  }

  /** On every run of the machine, whatever the operation: the list holds the key options in the
      order given, each under the index it had then, grouped into runs. */
  lemma {:induction false} ParamsExactly(opts: seq<Opt>)
    requires Run(INITIAL, opts).Some?
    ensures AreRuns(Run(INITIAL, opts).value.params, FilingsOf(opts))
  {
    if opts == [] {
      assert Run(INITIAL, opts).value.params == [];
    } else {
      var n := |opts| - 1;
      assert opts == opts[..n] + [opts[n]];
      RunAppend(INITIAL, opts[..n], opts[n]);
      ParamsExactly(opts[..n]);
      OneMoreFiling(opts[..n], opts[n]);
    }
  }

  lemma {:induction false} OneMoreFiling(front: seq<Opt>, o: Opt)
    requires Run(INITIAL, front).Some? && Run(INITIAL, front + [o]).Some?
    requires AreRuns(Run(INITIAL, front).value.params, FilingsOf(front))
    ensures AreRuns(Run(INITIAL, front + [o]).value.params, FilingsOf(front + [o]))
  {
    RunAppend(INITIAL, front, o);
    var s := Run(INITIAL, front).value;
    StepFiles(s, o);
    OneMoreOf(front, o);
    if o.OptKeyopt? {
      IndexIs(front);
      RunsGrow(s.params, FilingsOf(front), KeyIndex(s), o.text);
    }
  }

  lemma {:induction false} StepFiles(s: State, o: Opt)
    requires Step(s, o).Some?
    ensures Step(s, o).value.params == if o.OptKeyopt? then AddParam(s.params, KeyIndex(s), o.text) else s.params
  {
  }

  lemma {:induction false} OneMoreOf(front: seq<Opt>, o: Opt)
    ensures FilingsOf(front + [o])
         == if o.OptKeyopt? then FilingsOf(front) + [Filing(IndexBehind(front), o.text)] else FilingsOf(front)
  {
    assert (front + [o])[..|front|] == front;
  }

  /** A signer gets the first of these runs that has its index, and no other. */
  lemma {:induction false} FirstRunIsTaken(params: seq<Param>, i: nat)
    ensures if exists k :: 0 <= k < |params| && params[k].idx == i
            then exists k :: 0 <= k < |params| && params[k].idx == i && FindParam(params, i) == Some(params[k].opts)
                   && NoIndexIn(params[..k], i)
            else FindParam(params, i) == None
  {
    if params != [] && params[0].idx != i {
      FirstRunIsTaken(params[1..], i);
      var rest := params[1..];
      if k :| 0 <= k < |rest| && rest[k].idx == i && FindParam(rest, i) == Some(rest[k].opts)
              && NoIndexIn(rest[..k], i) {
        assert params[..k + 1] == [params[0]] + rest[..k];
        assert params[k + 1].idx == i && NoIndexIn(params[..k + 1], i);
      } else {
        assert forall k :: 1 <= k < |params| ==> params[k] == rest[k - 1];
      }
    } else if params != [] {
      assert params[0].idx == i && NoIndexIn(params[..0], i);
    }
  }

  predicate NoIndexIn(params: seq<Param>, i: nat) { forall k :: 0 <= k < |params| ==> params[k].idx != i }

  predicate IsPairOf(info: SignerInfo, segment: seq<Opt>) {
    && SignersIn(segment) == [info.cert]
    && (if KeysIn(segment) == [] then info.key == info.cert else KeysIn(segment) == [info.key])
  }

  /** On every run, filed or not: the command adds signers exactly if the last operation is to
      sign and every segment has a signer; each signer has its own key or else itself, and the
      first run of key options under its index. */
  lemma {:induction false} SignersExactly(opts: seq<Opt>) returns (head: seq<Opt>, segments: seq<seq<Opt>>)
    requires Run(INITIAL, opts).Some?
    ensures JoinAll([], WithoutKeyopts(opts)).Some?
    ensures AreSegments(WithoutKeyopts(opts), JoinAll([], WithoutKeyopts(opts)).value, head, segments)
    ensures var op := FinalOperation(NoOperation, opts);
            Signers(opts).Some? <==> (op == Sign || op == Resign) && segments != [] && AllHaveSigners(segments)
    ensures Signers(opts).Some? ==>
              && |Signers(opts).value| == |segments|
              && forall i: nat :: i < |segments| ==>
                   && IsPairOf(Signers(opts).value[i], segments[i])
                   && Signers(opts).value[i].opts == FindParam(Run(INITIAL, opts).value.params, i)
  {
    GroupsWithoutKeyopts(opts);
    RecipientsAreCounted(opts);
    var s, groups := Run(INITIAL, opts).value, JoinAll([], WithoutKeyopts(opts)).value;
    head, segments := GroupsAreSegments(WithoutKeyopts(opts));
    SignersOfSegments(groups, segments);
    FinishFollowsGroups(s, groups);
    if Signers(opts).Some? {
      var t := Finish(s).value;
      forall i: nat | i < |segments|
        ensures IsPairOf(Consume(t)[i], segments[i])
      {
        assert Closed(t, groups[i], i) && IsGroupOf(groups[i], segments[i]);
      }
    }
  }
}

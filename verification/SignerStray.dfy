/** What becomes of a `-keyopt` that is not filed under the open group: the signers of the
    finished command differ from what the options mean, whatever comes after it. */
module SignerStray {
  import opened Bytes
  import opened SignerSpec

  // ---------- sums ----------

  /** All texts that have been filed. */
  function Filings(params: seq<Param>): nat { if params == [] then 0 else |params[0].opts| + Filings(params[1..]) }

  function Given(groups: seq<Group>): nat {
    if groups == [] then 0 else Given(groups[..|groups| - 1]) + |groups[|groups| - 1].opts|
  }

  /** How many texts a signer gets. */
  function Seen(params: seq<Param>, i: nat): nat {
    var found := FindParam(params, i);
    if found.Some? then |found.value| else 0
  }

  function SeenBelow(params: seq<Param>, n: nat): nat {
    if n == 0 then 0 else SeenBelow(params, n - 1) + Seen(params, n - 1)
  }

  /** How many texts are filed under an index, seen or not. */
  function Under(params: seq<Param>, i: nat): nat {
    if params == [] then 0 else (if params[0].idx == i then |params[0].opts| else 0) + Under(params[1..], i)
  }

  lemma {:induction false} SeenIsUnder(params: seq<Param>, i: nat)
    ensures Seen(params, i) <= Under(params, i)
  {
    if params != [] { SeenIsUnder(params[1..], i); }
  }

  lemma {:induction false} UnderAppend(params: seq<Param>, p: Param, i: nat)
    ensures Under(params + [p], i) == Under(params, i) + if p.idx == i then |p.opts| else 0
    ensures Filings(params + [p]) == Filings(params) + |p.opts|
  {
    if params == [] {
      assert params + [p] == [p] && [p][1..] == [];
    } else {
      assert (params + [p])[1..] == params[1..] + [p];
      UnderAppend(params[1..], p, i);
    }
  }

  /** A filed text is counted once, under its index. */
  lemma UnderAdd(params: seq<Param>, idx: int, t: string, i: nat)
    ensures Under(AddParam(params, idx, t), i) == Under(params, i) + if idx == i then 1 else 0
    ensures Filings(AddParam(params, idx, t)) == Filings(params) + 1
  {
    var n := |params|;
    if n == 0 || params[n - 1].idx != idx {
      UnderAppend(params, Param(idx, [t]), i);
    } else {
      var front, last := params[..n - 1], params[n - 1];
      assert params == front + [last];
      assert AddParam(params, idx, t) == front + [Param(idx, last.opts + [t])];
      UnderAppend(front, last, i);
      UnderAppend(front, Param(idx, last.opts + [t]), i);
    }
  }

  /** Where something was found, no less is found after another filing. */
  lemma SeenAdd(params: seq<Param>, idx: int, t: string, i: nat)
    ensures Seen(params, i) <= Seen(AddParam(params, idx, t), i)
    ensures FindParam(params, i).Some? ==> FindParam(AddParam(params, idx, t), i).Some?
  {
    var n := |params|;
    if n == 0 || params[n - 1].idx != idx {
      FindParamAppend(params, Param(idx, [t]), i);
    } else {
      var front, last := params[..n - 1], params[n - 1];
      assert params == front + [last];
      assert AddParam(params, idx, t) == front + [Param(idx, last.opts + [t])];
      FindParamAppend(front, last, i);
      FindParamAppend(front, Param(idx, last.opts + [t]), i);
    }
  }

  // ---------- what is lost ----------

  predicate AllFilled(params: seq<Param>) { forall p :: 0 <= p < |params| ==> params[p].opts != [] }

  /** An entry stands behind another one with its index, and is never found. */
  predicate Shadowed(params: seq<Param>) {
    exists p, q :: 0 <= p < q < |params| && params[p].idx == params[q].idx
  }

  lemma {:induction false} SeenBehindFirst(params: seq<Param>, n: nat)
    requires params != []
    ensures var p, rest := params[0], params[1..];
            SeenBelow(params, n) == SeenBelow(rest, n) + if 0 <= p.idx < n then |p.opts| - Seen(rest, p.idx) else 0
  {
    if n > 0 { SeenBehindFirst(params, n - 1); }
  }

  lemma {:induction false} SeenAtMostFilings(params: seq<Param>, n: nat)
    ensures SeenBelow(params, n) <= Filings(params)
    decreases |params|
  {
    if params == [] {
      NothingSeen(n);
    } else {
      SeenBehindFirst(params, n);
      SeenAtMostFilings(params[1..], n);
    }
  }

  lemma {:induction false} NothingSeen(n: nat)
    ensures SeenBelow([], n) == 0
  {
    if n > 0 { NothingSeen(n - 1); }
  }

  lemma {:induction false} FoundBehind(params: seq<Param>, q: nat)
    requires AllFilled(params) && q < |params| && params[q].idx >= 0
    ensures Seen(params, params[q].idx) > 0
  {
    if q > 0 {
      assert params[1..][q - 1] == params[q];
      FoundBehind(params[1..], q - 1);
    }
  }

  /** With a shadowed entry, the signers together get fewer texts than were given. */
  lemma {:induction false} ShadowedIsLost(params: seq<Param>, n: nat)
    requires AllFilled(params) && Shadowed(params)
    ensures SeenBelow(params, n) < Filings(params)
    decreases |params|
  {
    var p, q :| 0 <= p < q < |params| && params[p].idx == params[q].idx;
    var rest := params[1..];
    SeenBehindFirst(params, n);
    if p > 0 {
      assert rest[p - 1].idx == rest[q - 1].idx;
      ShadowedIsLost(rest, n);
    } else {
      SeenAtMostFilings(rest, n);
      assert rest[q - 1] == params[q];
      if params[0].idx >= 0 { FoundBehind(rest, q - 1); }
    }
  }

  lemma ShadowedStays(params: seq<Param>, idx: int, t: string)
    requires AllFilled(params)
    ensures AllFilled(AddParam(params, idx, t))
    ensures Shadowed(params) ==> Shadowed(AddParam(params, idx, t))
  {
    var after := AddParam(params, idx, t);
    if Shadowed(params) {
      var p, q :| 0 <= p < q < |params| && params[p].idx == params[q].idx;
      assert after[p].idx == after[q].idx;
    }
  }

  // ---------- a machine that has gone astray ----------

  /** A group will never get all its options: what is filed under its index later on is its
      own, because there are more recipients than that. */
  predicate Short(s: State, groups: seq<Group>, i: nat) {
    i < |groups| && s.recipients > i + 1 && Under(s.params, i) < |groups[i].opts|
  }

  /** A closed group has got more options than it was given. */
  predicate Excess(s: State, groups: seq<Group>, i: nat) {
    i + 1 < |groups| && FindParam(s.params, i).Some? && Seen(s.params, i) > |groups[i].opts|
  }

  ghost predicate Astray(s: State, groups: seq<Group>) {
    && Tracks(s, groups) && AllFilled(s.params) && Filings(s.params) == Given(groups)
    && ((exists i: nat :: Short(s, groups, i)) || (exists i: nat :: Excess(s, groups, i)) || Shadowed(s.params))
  }

  lemma {:induction false} ParamsAreGiven(groups: seq<Group>)
    ensures Filings(ParamsOf(groups)) == Given(groups) && AllFilled(ParamsOf(groups))
  {
    var n := |groups|;
    if n > 0 {
      var p, last := ParamsOf(groups[..n - 1]), groups[n - 1].opts;
      ParamsAreGiven(groups[..n - 1]);
      if last == [] { assert p + [] == p; } else { UnderAppend(p, Param(n - 1, last), 0); }
    }
  }

  lemma {:induction false} UnderOwnGroup(groups: seq<Group>, i: nat)
    ensures Under(ParamsOf(groups), i) == if i < |groups| then |groups[i].opts| else 0
  {
    var n := |groups|;
    if n > 0 {
      var p, last := ParamsOf(groups[..n - 1]), groups[n - 1].opts;
      UnderOwnGroup(groups[..n - 1], i);
      if last == [] { assert p + [] == p; } else { UnderAppend(p, Param(n - 1, last), i); }
    }
  }

  lemma GivenMore(groups: seq<Group>, o: Opt)
    requires Join(groups, o).Some?
    ensures Given(Join(groups, o).value) == Given(groups) + if o.OptKeyopt? then 1 else 0
  {
    var n, after := |groups|, Join(groups, o).value;
    if |after| == n {
      if n > 0 { assert after[..n - 1] == groups[..n - 1]; }
    } else {
      assert after[..n] == groups;
    }
  }

  /** Closed groups keep their options, and the open one only gets more. */
  lemma JoinOpts(groups: seq<Group>, o: Opt, i: nat)
    requires Join(groups, o).Some? && i < |groups|
    ensures i < |groups| <= |Join(groups, o).value|
    ensures |Join(groups, o).value[i].opts| == |groups[i].opts| + if o.OptKeyopt? && i == |groups| - 1 then 1 else 0
  {
  }

  lemma ShortStays(s: State, groups: seq<Group>, o: Opt, i: nat)
    requires Tracks(s, groups) && Step(s, o).Some? && Join(groups, o).Some? && Short(s, groups, i)
    ensures Short(Step(s, o).value, Join(groups, o).value, i)
  {
    JoinOpts(groups, o, i);
    if o.OptKeyopt? {
      UnderAdd(s.params, KeyIndex(s), o.text, i);
    }
  }

  lemma ExcessStays(s: State, groups: seq<Group>, o: Opt, i: nat)
    requires Step(s, o).Some? && Join(groups, o).Some? && Excess(s, groups, i)
    ensures Excess(Step(s, o).value, Join(groups, o).value, i)
  {
    JoinOpts(groups, o, i);
    if o.OptKeyopt? {
      SeenAdd(s.params, KeyIndex(s), o.text, i);
    }
  }

  lemma CountsStay(s: State, groups: seq<Group>, o: Opt)
    requires Step(s, o).Some? && Join(groups, o).Some?
    requires AllFilled(s.params) && Filings(s.params) == Given(groups)
    ensures var t := Step(s, o).value;
            && AllFilled(t.params) && Filings(t.params) == Given(Join(groups, o).value)
            && (Shadowed(s.params) ==> Shadowed(t.params))
  {
    GivenMore(groups, o);
    if o.OptKeyopt? {
      UnderAdd(s.params, KeyIndex(s), o.text, 0);
      ShadowedStays(s.params, KeyIndex(s), o.text);
    }
  }

  lemma AstrayStays(s: State, groups: seq<Group>, o: Opt)
    requires Astray(s, groups) && Step(s, o).Some? && Join(groups, o).Some?
    ensures Astray(Step(s, o).value, Join(groups, o).value)
  {
    StepTracks(s, groups, o);
    CountsStay(s, groups, o);
    if i: nat :| Short(s, groups, i) {
      ShortStays(s, groups, o, i);
    } else if i: nat :| Excess(s, groups, i) {
      ExcessStays(s, groups, o, i);
    }
  }

  lemma {:induction false} AstrayForEver(s: State, groups: seq<Group>, opts: seq<Opt>)
    requires Astray(s, groups) && Run(s, opts).Some? && JoinAll(groups, opts).Some?
    ensures Astray(Run(s, opts).value, JoinAll(groups, opts).value)
    decreases |opts|
  {
    if opts != [] {
      AstrayStays(s, groups, opts[0]);
      AstrayForEver(Step(s, opts[0]).value, Join(groups, opts[0]).value, opts[1..]);
    }
  }

  // ---------- the first stray ----------

  /** More recipients than groups: the open group has lost the option. */
  lemma StrayBeyond(s: State, groups: seq<Group>, t: string)
    requires Represents(s, groups) && s.operation == Encrypt && groups != [] && s.recipients > |groups|
    ensures Short(Step(s, OptKeyopt(t)).value, Join(groups, OptKeyopt(t)).value, |groups| - 1)
  {
    UnderOwnGroup(groups, |groups| - 1);
    JoinOpts(groups, OptKeyopt(t), |groups| - 1);
    UnderAdd(s.params, KeyIndex(s), t, |groups| - 1);
  }

  /** Fewer recipients than groups: an earlier group has got it, or nobody. */
  lemma StrayBehind(s: State, groups: seq<Group>, t: string)
    requires Represents(s, groups) && s.operation == Encrypt && 0 < s.recipients < |groups|
    ensures var after := Step(s, OptKeyopt(t)).value;
            Excess(after, Join(groups, OptKeyopt(t)).value, s.recipients - 1) || Shadowed(after.params)
  {
    var i, params, n := s.recipients - 1, s.params, |s.params|;
    JoinOpts(groups, OptKeyopt(t), i);
    FindParamOfGroup(groups, i);
    if n > 0 && params[n - 1].idx == i {
      LastIsFound(groups, n - 1, i);
      var front, last := params[..n - 1], params[n - 1];
      assert params == front + [last];
      assert AddParam(params, i, t) == front + [Param(i, last.opts + [t])];
      FindParamAppend(front, last, i);
      FindParamAppend(front, Param(i, last.opts + [t]), i);
    } else {
      FindParamAppend(params, Param(i, [t]), i);
      if FindParam(params, i).Some? {
        var p := FoundAt(params, i);
        var after := AddParam(params, i, t);
        assert after[p].idx == after[n].idx;
      }
    }
  }

  lemma {:induction false} FoundAt(params: seq<Param>, i: nat) returns (p: nat)
    requires FindParam(params, i).Some?
    ensures p < |params| && params[p].idx == i
  {
    if params[0].idx == i {
      p := 0;
    } else {
      p := FoundAt(params[1..], i);
      p := p + 1;
    }
  }

  /** The last entry of a list that belongs to groups is the only one with its index. */
  lemma LastIsFound(groups: seq<Group>, k: nat, i: nat)
    requires k + 1 == |ParamsOf(groups)| && ParamsOf(groups)[k].idx == i
    ensures FindParam(ParamsOf(groups)[..k], i).None?
  {
    ParamsIncrease(groups);
    if FindParam(ParamsOf(groups)[..k], i).Some? {
      var p := FoundAt(ParamsOf(groups)[..k], i);
      assert false;
    }
  }

  lemma StrayIsAstray(s: State, groups: seq<Group>, t: string)
    requires Represents(s, groups) && !Fits(s, groups)
    requires Step(s, OptKeyopt(t)).Some? && Join(groups, OptKeyopt(t)).Some?
    ensures Astray(Step(s, OptKeyopt(t)).value, Join(groups, OptKeyopt(t)).value)
  {
    StepTracks(s, groups, OptKeyopt(t));
    ParamsAreGiven(groups);
    CountsStay(s, groups, OptKeyopt(t));
    if s.recipients > |groups| {
      StrayBeyond(s, groups, t);
    } else {
      StrayBehind(s, groups, t);
    }
  }

  lemma {:induction false} FirstStray(s: State, groups: seq<Group>, opts: seq<Opt>)
    requires Represents(s, groups) && !Filed(s, groups, opts)
    requires Run(s, opts).Some? && JoinAll(groups, opts).Some?
    ensures Astray(Run(s, opts).value, JoinAll(groups, opts).value)
    decreases |opts|
  {
    var t, after := Step(s, opts[0]).value, Join(groups, opts[0]).value;
    if opts[0].OptKeyopt? && !Fits(s, groups) {
      StrayIsAstray(s, groups, opts[0].text);
      AstrayForEver(t, after, opts[1..]);
    } else {
      StepKeepsGroups(s, groups, opts[0]);
      FirstStray(t, after, opts[1..]);
    }
  }

  // ---------- the result ----------

  /** If every signer had its own options, as many would be seen as were given. */
  lemma {:induction false} AllSeen(params: seq<Param>, groups: seq<Group>)
    requires forall i: nat :: i < |groups| ==> Seen(params, i) == |groups[i].opts|
    ensures SeenBelow(params, |groups|) == Given(groups)
  {
    if groups != [] {
      var front := groups[..|groups| - 1];
      assert forall i: nat :: i < |front| ==> Seen(params, i) == |front[i].opts|;
      AllSeen(params, front);
    }
  }

  lemma AstrayDiffers(s: State, groups: seq<Group>)
    requires Astray(s, groups) && Finish(s).Some?
    requires forall i :: 0 <= i < |groups| ==> groups[i].signer.Some?
    ensures Consume(Finish(s).value) != InfosOf(groups)
  {
    FinishFollowsGroups(s, groups);
    var t := Finish(s).value;
    if Consume(t) == InfosOf(groups) {
      forall i: nat | i < |groups|
        ensures Seen(s.params, i) == |groups[i].opts|
      {
        assert Consume(t)[i] == InfosOf(groups)[i];
      }
      if i: nat :| Short(s, groups, i) {
        SeenIsUnder(s.params, i);
      } else if !(exists i: nat :: Excess(s, groups, i)) {
        AllSeen(s.params, groups);
        ShadowedIsLost(s.params, |groups|);
      }
      assert false;
    }
  }

  /** The exact condition: what an accepted command does is what its options mean if and only
      if every `-keyopt` was filed under the group that was open. */
  lemma AlignedIffFiled(opts: seq<Opt>)
    requires Signers(opts).Some?
    ensures Signers(opts) == Meaning(opts) <==> Filed(INITIAL, [], opts)
  {
    if Filed(INITIAL, [], opts) {
      SignersMeanTheirGroups(opts);
    } else if Meaning(opts).Some? {
      FirstStray(INITIAL, [], opts);
      AstrayDiffers(Run(INITIAL, opts).value, JoinAll([], opts).value);
    }
  }

  /** Without `-encrypt`, every `-keyopt` is filed under the open group. */
  lemma {:induction false} FiledWithoutEncrypt(s: State, groups: seq<Group>, opts: seq<Opt>)
    requires Represents(s, groups) && s.operation != Encrypt
    requires OptOperation(Encrypt) !in opts
    ensures Filed(s, groups, opts)
    decreases |opts|
  {
    if opts != [] && Step(s, opts[0]).Some? && Join(groups, opts[0]).Some? {
      StepKeepsGroups(s, groups, opts[0]);
      FiledWithoutEncrypt(Step(s, opts[0]).value, Join(groups, opts[0]).value, opts[1..]);
    }
  }
}

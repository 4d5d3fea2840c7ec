/** The policy section: which entries of a request must be there, must agree with the CA's
    own name, and end up in the subject of the certificate. */
module Policy {
  import opened Bytes
  import opened Names

  /** A line "name = value" of the section. */
  datatype ConfValue = ConfValue(name: string, value: string)

  /** `OBJ_txt2nid` */
  type Txt2Nid = string -> Oid

  const OPTIONAL := "optional"
  const SUPPLIED := "supplied"
  const MATCH := "match"

  predicate IsRuleValue(value: string) { value == OPTIONAL || value == SUPPLIED || value == MATCH }

  // ---------- what a policy demands ----------

  /** An entry of the request agrees with the CA if the CA has the very same entry. */
  predicate AllMatch(es: seq<Entry>, ca: seq<Entry>) { forall i :: 0 <= i < |es| ==> es[i] in ca }

  predicate RuleMet(txt2nid: Txt2Nid, cv: ConfValue, request: seq<Entry>, ca: seq<Entry>) {
    var obj := txt2nid(cv.name);
    && obj != UNDEF && IsRuleValue(cv.value)
    && (cv.value != OPTIONAL ==> EntriesOf(request, obj) != [])
    && (cv.value == MATCH ==> AllMatch(EntriesOf(request, obj), ca))
  }

  predicate PolicyMet(txt2nid: Txt2Nid, policy: seq<ConfValue>, request: seq<Entry>, ca: seq<Entry>) {
    forall i :: 0 <= i < |policy| ==> RuleMet(txt2nid, policy[i], request, ca)
  }

  /** For each line of the policy in turn, the request's entries of that type in order. */
  function Subject(txt2nid: Txt2Nid, policy: seq<ConfValue>, request: seq<Entry>): seq<Entry> {
    if policy == [] then []
    else
      var n := |policy| - 1;
      Subject(txt2nid, policy[..n], request) + EntriesOf(request, txt2nid(policy[n].name))
  }

  // ---------- the loop ----------

  /** The inner loop, `again2`: the first entry of the CA of this type that compares equal. */
  method FindMatch(caName: X509Name, obj: Oid, tne: Entry) returns (push: Option<Entry>)
    requires tne.obj == obj
    ensures push == if tne in caName.entries then Some(tne) else None
  {
    var last2 := -1;
    while true
      invariant -1 <= last2 < |caName.entries| && tne !in caName.entries[..last2 + 1]
      decreases |caName.entries| - last2
    {
      var j := caName.GetIndexByObj(obj, last2);
      ghost var next := if j < 0 then |caName.entries| else j;
      assert caName.entries[..next] == caName.entries[..last2 + 1] + caName.entries[last2 + 1..next];
      if j < 0 {
        assert caName.entries[..next] == caName.entries;
        return None;
      }
      var str2 := caName.entries[j];
      last2 := j;
      if str2.data == tne.data && str2.strType == tne.strType {
        return Some(str2);
      }
      assert caName.entries[..j + 1] == caName.entries[..j] + [str2];
    }
  }

  /** What one line of the policy has to say about one entry, or about having none. */
  datatype Verdict = Refuse | Skip | Push(e: Entry)

  method Decide(value: string, obj: Oid, tne: Option<Entry>, caName: X509Name) returns (v: Verdict)
    requires tne.Some? ==> tne.value.obj == obj
    ensures v.Refuse? <==>
              || !IsRuleValue(value)
              || (value != OPTIONAL && tne.None?)
              || (value == MATCH && tne.value !in caName.entries)
    ensures !v.Refuse? ==> v == if tne.Some? then Push(tne.value) else Skip
  {
    if value == OPTIONAL {
      v := if tne.Some? then Push(tne.value) else Skip;
    } else if value == SUPPLIED {
      v := if tne.None? then Refuse else Push(tne.value);
    } else if value == MATCH {
      if tne.None? {
        return Refuse;
      }
      var push := FindMatch(caName, obj, tne.value);
      v := if push.None? then Refuse else Push(push.value);
    } else {
      v := Refuse;
    }
  }

  /** What has been established when the entries before `n` have been looked at. */
  ghost predicate RuleSoFar(value: string, obj: Oid, request: seq<Entry>, ca: seq<Entry>, n: nat)
    requires n <= |request|
  {
    var seen := EntriesOf(request[..n], obj);
    && IsRuleValue(value)
    && (value != OPTIONAL ==> seen != [])
    && (value == MATCH ==> AllMatch(seen, ca))
  }

  lemma SeenOne(request: seq<Entry>, obj: Oid, from: nat, j: nat)
    requires from <= j < |request| && Lacks(request[from..j], obj) && request[j].obj == obj
    ensures EntriesOf(request[..j + 1], obj) == EntriesOf(request[..from], obj) + [request[j]]
  {
    SkipOthers(request, obj, from, j);
    assert request[..j + 1][..j] == request[..j];
  }

  lemma SeenAll(request: seq<Entry>, obj: Oid, from: nat)
    requires from <= |request| && Lacks(request[from..|request|], obj)
    ensures EntriesOf(request, obj) == EntriesOf(request[..from], obj)
  {
    SkipOthers(request, obj, from, |request|);
    assert request[..|request|] == request;
  }

  /** The loop over the entries of one type. */
  method ApplyRule(value: string, obj: Oid, name: X509Name, caName: X509Name, subject: X509Name) returns (ok: bool)
    requires subject != name && subject != caName
    modifies subject
    ensures ok <==> RuleSoFar(value, obj, name.entries, caName.entries, |name.entries|)
    ensures ok ==> subject.entries == old(subject.entries) + EntriesOf(name.entries, obj)
  {
    var last := -1;
    assert name.entries[..|name.entries|] == name.entries;
    while true
      invariant -1 <= last < |name.entries|
      invariant last != -1 ==> RuleSoFar(value, obj, name.entries, caName.entries, last + 1)
      invariant subject.entries == old(subject.entries) + EntriesOf(name.entries[..last + 1], obj)
      decreases |name.entries| - last
    {
      var j := name.GetIndexByObj(obj, last);
      var tne: Option<Entry> := None;
      if j < 0 {
        SeenAll(name.entries, obj, last + 1);
        if last != -1 {
          return true;
        }
      } else {
        tne := Some(name.entries[j]);
        SeenOne(name.entries, obj, last + 1, j);
      }
      var v := Decide(value, obj, tne, caName);
      if v.Refuse? {
        RefusedForGood(value, obj, name.entries, caName.entries, tne);
        return false;
      }
      if v.Push? {
        subject.AddEntry(v.e);
      }
      if j < 0 {
        return true;
      }
      last := j;
    }
  }

  /** An entry that is refused makes the whole rule fail. */
  lemma RefusedForGood(value: string, obj: Oid, request: seq<Entry>, ca: seq<Entry>, tne: Option<Entry>)
    requires if tne.Some? then tne.value in request && tne.value.obj == obj else EntriesOf(request, obj) == []
    requires !IsRuleValue(value) || (value != OPTIONAL && tne.None?) || (value == MATCH && tne.value !in ca)
    ensures !RuleSoFar(value, obj, request, ca, |request|)
  {
    assert request[..|request|] == request;
    EntriesAreOfType(request, obj);
    if IsRuleValue(value) && tne.Some? {
      assert tne.value in EntriesOf(request, obj);
    }
  }

  /** The loop over the policy. */
  method ApplyPolicy(txt2nid: Txt2Nid, policy: seq<ConfValue>, name: X509Name, caName: X509Name)
    returns (subject: Option<X509Name>)
    ensures subject.Some? <==> PolicyMet(txt2nid, policy, name.entries, caName.entries)
    ensures subject.Some? ==>
              fresh(subject.value) && subject.value.entries == Subject(txt2nid, policy, name.entries)
  {
    var built := new X509Name([]);
    for i := 0 to |policy|
      invariant built.entries == Subject(txt2nid, policy[..i], name.entries)
      invariant forall k :: 0 <= k < i ==> RuleMet(txt2nid, policy[k], name.entries, caName.entries)
    {
      var cv := policy[i];
      var obj := txt2nid(cv.name);
      assert policy[..i + 1][..i] == policy[..i];
      assert name.entries[..|name.entries|] == name.entries;
      if obj == UNDEF {
        return None;
      }
      var ok := ApplyRule(cv.value, obj, name, caName, built);
      if !ok {
        return None;
      }
    }
    assert policy[..|policy|] == policy;
    subject := Some(built);
  }

  // ---------- what this means for the subject ----------

  predicate Named(txt2nid: Txt2Nid, policy: seq<ConfValue>, obj: Oid) {
    exists i :: 0 <= i < |policy| && txt2nid(policy[i].name) == obj
  }

  predicate NamedOnce(txt2nid: Txt2Nid, policy: seq<ConfValue>) {
    forall i, j :: 0 <= i < j < |policy| ==> txt2nid(policy[i].name) != txt2nid(policy[j].name)
  }

  /** If no type is named twice, the subject has exactly the request's entries of the types
      that the policy names, and none of any other type. */
  lemma {:induction false} SubjectKeepsNamedTypes(txt2nid: Txt2Nid, policy: seq<ConfValue>, request: seq<Entry>,
      obj: Oid)
    requires NamedOnce(txt2nid, policy)
    ensures EntriesOf(Subject(txt2nid, policy, request), obj)
         == if Named(txt2nid, policy, obj) then EntriesOf(request, obj) else []
  {
    if policy != [] {
      var n := |policy| - 1;
      var last := txt2nid(policy[n].name);
      SubjectKeepsNamedTypes(txt2nid, policy[..n], request, obj);
      EntriesOfAppend(Subject(txt2nid, policy[..n], request), EntriesOf(request, last), obj);
      EntriesOfEntries(request, last, obj);
      assert Named(txt2nid, policy[..n], obj) ==> last != obj;
      assert Named(txt2nid, policy, obj) <==> Named(txt2nid, policy[..n], obj) || last == obj by {
        assert forall i :: 0 <= i < n ==> policy[..n][i] == policy[i];
      }
    }
  }

  lemma {:induction false} EntriesOfEntries(name: seq<Entry>, obj: Oid, other: Oid)
    ensures EntriesOf(EntriesOf(name, obj), other) == if other == obj then EntriesOf(name, obj) else []
  {
    if name != [] {
      var n := |name| - 1;
      EntriesOfEntries(name[..n], obj, other);
      var es := EntriesOf(name[..n], obj);
      if name[n].obj == obj {
        assert (es + [name[n]])[..|es|] == es;
      } else {
        assert EntriesOf(name, obj) == es;
      }
    }
  }

  /** A subject that was accepted agrees with the CA in every type that must match. */
  lemma MatchedEntriesAreTheCas(txt2nid: Txt2Nid, policy: seq<ConfValue>, request: seq<Entry>, ca: seq<Entry>, i: nat)
    requires PolicyMet(txt2nid, policy, request, ca) && NamedOnce(txt2nid, policy)
    requires i < |policy| && policy[i].value == MATCH
    ensures var es := EntriesOf(Subject(txt2nid, policy, request), txt2nid(policy[i].name));
            es != [] && forall k :: 0 <= k < |es| ==> es[k] in EntriesOf(ca, txt2nid(policy[i].name))
  {
    var obj := txt2nid(policy[i].name);
    SubjectKeepsNamedTypes(txt2nid, policy, request, obj);
    assert RuleMet(txt2nid, policy[i], request, ca);
    EntriesAreOfType(request, obj);
    EntriesAreOfType(ca, obj);
  }

  /** For a self-signed certificate "match" demands no more than "supplied": the name that is
      compared is the request's own. */
  lemma SelfSignedMatches(txt2nid: Txt2Nid, cv: ConfValue, request: seq<Entry>)
    requires cv.value == MATCH
    ensures RuleMet(txt2nid, cv, request, request) <==> RuleMet(txt2nid, cv.(value := SUPPLIED), request, request)
  {
    EntriesAreOfType(request, txt2nid(cv.name));
  }
}

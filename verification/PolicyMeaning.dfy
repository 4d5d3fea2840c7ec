/** What a policy demands of a name and what it makes of it, entry by entry, and what the string
    checks let pass and correct. */
module PolicyMeaning {
  import opened Bytes
  import opened NameCheck
  import opened Names
  import opened Policy

  // ---------- the demands ----------

  predicate HasEntry(name: seq<Entry>, obj: Oid) { exists i :: 0 <= i < |name| && name[i].obj == obj }

  /** Every line names a known type and one of three rules. A type that is supplied or matched
      occurs; and of a matched type the CA has every entry. */
  predicate MeetsPolicy(txt2nid: Txt2Nid, policy: seq<ConfValue>, request: seq<Entry>, ca: seq<Entry>) {
    forall i :: 0 <= i < |policy| ==>
      var obj, rule := txt2nid(policy[i].name), policy[i].value;
      && obj != 0 && (rule == "optional" || rule == "supplied" || rule == "match")
      && (rule == "supplied" || rule == "match" ==> HasEntry(request, obj))
      && (rule == "match" ==> forall j :: 0 <= j < |request| && request[j].obj == obj ==> request[j] in ca)
  }

  lemma RuleExactly(txt2nid: Txt2Nid, cv: ConfValue, request: seq<Entry>, ca: seq<Entry>)
    ensures RuleMet(txt2nid, cv, request, ca) <==>
              var obj, rule := txt2nid(cv.name), cv.value;
              && obj != 0 && (rule == "optional" || rule == "supplied" || rule == "match")
              && (rule == "supplied" || rule == "match" ==> HasEntry(request, obj))
              && (rule == "match" ==> forall j :: 0 <= j < |request| && request[j].obj == obj ==> request[j] in ca)
  {
    var obj := txt2nid(cv.name);
    var es := EntriesOf(request, obj);
    EntriesAreOfType(request, obj);
    assert HasEntry(request, obj) <==> es != [] by {
      if es != [] { assert es[0] in request; }
      if HasEntry(request, obj) {
        var i :| 0 <= i < |request| && request[i].obj == obj;
        assert request[i] in es;
      }
    }
    if AllMatch(es, ca) {
      forall j | 0 <= j < |request| && request[j].obj == obj
        ensures request[j] in ca
      {
        assert request[j] in es;
      }
    }
    if forall j :: 0 <= j < |request| && request[j].obj == obj ==> request[j] in ca {
      forall i | 0 <= i < |es|
        ensures es[i] in ca
      {
        assert es[i] in request;
      }
    }
  }

  /** The loop over the policy decides exactly that. */
  lemma PolicyExactly(txt2nid: Txt2Nid, policy: seq<ConfValue>, request: seq<Entry>, ca: seq<Entry>)
    ensures PolicyMet(txt2nid, policy, request, ca) <==> MeetsPolicy(txt2nid, policy, request, ca)
  {
    forall i | 0 <= i < |policy| { RuleExactly(txt2nid, policy[i], request, ca); }
  }

  // ---------- the subject ----------

  /** The entries that meet a condition, in their order. */
  function Select(s: seq<Entry>, keep: Entry -> bool): seq<Entry> {
    if s == [] then [] else (if keep(s[0]) then [s[0]] else []) + Select(s[1..], keep)
  }

  /** For one line after the other, all entries of its type. */
  function InPolicyOrder(txt2nid: Txt2Nid, policy: seq<ConfValue>, request: seq<Entry>): seq<Entry> {
    if policy == [] then []
    else
      var obj := txt2nid(policy[0].name);
      Select(request, (e: Entry) => e.obj == obj) + InPolicyOrder(txt2nid, policy[1..], request)
  }

  lemma {:induction false} SelectOfType(s: seq<Entry>, obj: Oid, keep: Entry -> bool)
    requires forall e :: keep(e) <==> e.obj == obj
    ensures Select(s, keep) == EntriesOf(s, obj)
  {
    if s == [] {
    } else {
      SelectOfType(s[1..], obj, keep);
      assert s == [s[0]] + s[1..];
      EntriesOfAppend([s[0]], s[1..], obj);
      assert [s[0]][..0] == [];
    }
  }

  lemma {:induction false} SelectOthers(s: seq<Entry>, obj: Oid, keep: Entry -> bool)
    requires forall e :: keep(e) <==> e.obj != obj
    ensures Select(s, keep) == Without(s, obj)
  {
    if s == [] {
    } else {
      SelectOthers(s[1..], obj, keep);
      assert s == [s[0]] + s[1..];
      WithoutAppend([s[0]], s[1..], obj);
      assert [s[0]][..0] == [];
    }
  }

  lemma SubjectOneMore(txt2nid: Txt2Nid, policy: seq<ConfValue>, cv: ConfValue, request: seq<Entry>)
    ensures Subject(txt2nid, policy + [cv], request)
         == Subject(txt2nid, policy, request) + EntriesOf(request, txt2nid(cv.name))
  {
    assert (policy + [cv])[..|policy|] == policy;
  }

  lemma {:induction false} SubjectFromFront(txt2nid: Txt2Nid, cv: ConfValue, rest: seq<ConfValue>, request: seq<Entry>)
    ensures Subject(txt2nid, [cv] + rest, request)
         == EntriesOf(request, txt2nid(cv.name)) + Subject(txt2nid, rest, request)
    decreases |rest|
  {
    if rest == [] {
      assert [cv] + rest == [] + [cv];
      SubjectOneMore(txt2nid, [], cv, request);
    } else {
      var front, last := rest[..|rest| - 1], rest[|rest| - 1];
      assert rest == front + [last] && [cv] + rest == [cv] + front + [last];
      SubjectFromFront(txt2nid, cv, front, request);
      SubjectOneMore(txt2nid, front, last, request);
      SubjectOneMore(txt2nid, [cv] + front, last, request);
    }
  }

  /** The subject that is built has exactly these entries in this order. */
  lemma {:induction false} SubjectExactly(txt2nid: Txt2Nid, policy: seq<ConfValue>, request: seq<Entry>)
    ensures Subject(txt2nid, policy, request) == InPolicyOrder(txt2nid, policy, request)
  {
    if policy != [] {
      var cv, rest := policy[0], policy[1..];
      SubjectExactly(txt2nid, rest, request);
      assert policy == [cv] + rest;
      SubjectFromFront(txt2nid, cv, rest, request);
      InOrderFromFront(txt2nid, policy, request);
    }
  }

  lemma InOrderFromFront(txt2nid: Txt2Nid, policy: seq<ConfValue>, request: seq<Entry>)
    requires policy != []
    ensures InPolicyOrder(txt2nid, policy, request)
         == EntriesOf(request, txt2nid(policy[0].name)) + InPolicyOrder(txt2nid, policy[1..], request)
  {
    var obj := txt2nid(policy[0].name);
    SelectOfType(request, obj, (e: Entry) => e.obj == obj);
  }

  // ---------- the string types ----------

  /** A letter, a digit, or one of twelve other characters. */
  predicate MayBePrinted(c: byte) {
    var ch := c as char;
    || '0' <= ch <= '9' || 'A' <= ch <= 'Z' || 'a' <= ch <= 'z' || ch in " '()+,-./:=?"
  }

  lemma PrintableExactly(c: byte)
    ensures IsPrintable(c) <==> MayBePrinted(c)
  {
  }

  predicate IsSevenBit(s: seq<byte>) { forall i :: 0 <= i < |s| ==> s[i] <= 0x7F }

  predicate AllPrinted(s: seq<byte>) { forall i :: 0 <= i < |s| ==> MayBePrinted(s[i]) }

  /** Which entries are let pass, type by type: 19 is a PrintableString, 22 an IA5String, 12, 20
      and 30 are the types that are not looked at, and 48 is an e-mail address. */
  lemma PassesExactly(emailDn: bool, e: Entry)
    ensures e.obj == 48 && !emailDn ==> Passes(emailDn, e)
    ensures e.obj == 48 && emailDn ==> (Passes(emailDn, e) <==> e.strType == 22 && IsSevenBit(e.data))
    ensures e.obj != 48 && (e.strType == 12 || e.strType == 20 || e.strType == 30) ==> Passes(emailDn, e)
    ensures e.obj != 48 && e.strType == 19 ==> (Passes(emailDn, e) <==> AllPrinted(e.data))
    ensures e.obj != 48 && e.strType !in {12, 19, 20, 30} ==> (Passes(emailDn, e) <==> IsSevenBit(e.data))
  {
    forall i | 0 <= i < |e.data| { PrintableExactly(e.data[i]); }
    if AllPrinted(e.data) { PrintedIsAscii(e.data); }
  }

  lemma PrintedIsAscii(s: seq<byte>)
    requires AllPrinted(s)
    ensures IsSevenBit(s)
  {
  }

  predicate FourByteNarrow(s: seq<byte>) {
    |s| % 4 == 0 && forall k :: 0 <= k < |s| && k % 4 != 3 ==> s[k] == 0
  }

  lemma NarrowFromFront(s: seq<byte>)
    requires |s| % 4 == 0 && s != []
    ensures FourByteNarrow(s) <==> s[0] == s[1] == s[2] == 0 && FourByteNarrow(s[4..])
  {
    var t := s[4..];
    if FourByteNarrow(t) && s[0] == s[1] == s[2] == 0 {
      forall k | 0 <= k < |s| && k % 4 != 3
        ensures s[k] == 0
      {
        if k >= 4 { assert t[k - 4] == s[k] && (k - 4) % 4 == k % 4; }
      }
    }
    if FourByteNarrow(s) {
      forall k | 0 <= k < |t| && k % 4 != 3
        ensures t[k] == 0
      {
        assert s[k + 4] == 0;
      }
    }
  }

  lemma {:induction false} NarrowExactly(s: seq<byte>)
    ensures IsNarrow(s) <==> FourByteNarrow(s)
    decreases |s|
  {
    if |s| % 4 == 0 && s != [] {
      NarrowExactly(s[4..]);
      NarrowFromFront(s);
    }
  }

  lemma {:induction false} NarrowedSize(s: seq<byte>)
    requires |s| % 4 == 0
    ensures 4 * |Narrow(s)| == |s|
    decreases |s|
  {
    if s != [] { NarrowedSize(s[4..]); }
  }

  lemma {:induction false} NarrowedByte(s: seq<byte>, k: nat)
    requires |s| % 4 == 0 && 4 * k + 3 < |s| && k < |Narrow(s)|
    ensures Narrow(s)[k] == s[4 * k + 3]
    decreases |s|
  {
    if k > 0 {
      NarrowedByte(s[4..], k - 1);
      assert s[4..][4 * (k - 1) + 3] == s[4 * k + 3];
    }
  }

  /** What `-msie_hack` makes of an entry: four-byte characters (type 28) that need only one
      byte lose the other three and get the narrowest type; then an IA5String becomes a
      T61String, except that an e-mail address is an IA5String and not a PrintableString. */
  lemma CorrectedExactly(e: Entry)
    ensures var d := Corrected(e);
            var narrow := e.strType == 28 && FourByteNarrow(e.data);
            var typ := if !narrow then e.strType
                       else if !IsSevenBit(d.data) then 20 else if !AllPrinted(d.data) then 22 else 19;
            && d.obj == e.obj
            && (if narrow then
                  4 * |d.data| == |e.data| && forall k :: 0 <= k < |d.data| ==> d.data[k] == e.data[4 * k + 3]
                else d.data == e.data)
            && d.strType == if typ == 22 && e.obj != 48 then 20 else if typ == 19 && e.obj == 48 then 22 else typ
  {
    NarrowExactly(e.data);
    if |e.data| % 4 == 0 {
      NarrowedSize(e.data);
      forall k: nat | k < |Narrow(e.data)| { NarrowedByte(e.data, k); }
    }
    var d := Corrected(e);
    forall i | 0 <= i < |d.data| { PrintableExactly(d.data[i]); }
  }
}

/** What the revocation field holds, character by character: which arguments are taken, what is
    printed for them, and what every field means when it is read. */
module RevFields {
  import opened Asn1Time
  import opened Bytes
  import opened RevInfo

  type Name = s: string | forall k :: 0 <= k < |s| ==> 'A' <= s[k] <= 'Z' || 'a' <= s[k] <= 'z'

  const EARLY_REASONS: seq<Name> := ["unspecified", "keyCompromise", "CACompromise", "affiliationChanged"]
  const LATE_REASONS: seq<Name> := ["superseded", "cessationOfOperation", "certificateHold", "removeFromCRL"]
  const PSEUDO_REASONS: seq<Name> := ["holdInstruction", "keyTime", "CAkeyTime"]

  /** Eight reasons, and three pseudo reasons. */
  const REASONS: seq<Name> := EARLY_REASONS + LATE_REASONS + PSEUDO_REASONS

  /** The same letter, small or capital. */
  predicate SameLetter(b: byte, c: char) {
    b == c as int || b == if 'A' <= c <= 'Z' then c as int + 32 else c as int - 32
  }

  predicate Spells(s: seq<byte>, name: Name) {
    |s| == |name| && forall k :: 0 <= k < |s| ==> SameLetter(s[k], name[k])
  }

  lemma ReasonIs(i: nat)
    requires i < 11
    ensures ReasonName(i) == REASONS[i] && Reason(i) == Ascii(REASONS[i])
  {
  }

  lemma SpellsName(s: seq<byte>, name: Name)
    ensures EqualFold(s, Ascii(name)) <==> Spells(s, name)
  {
    var t := Ascii(name);
    if |s| == |name| {
      forall k | 0 <= k < |s|
        ensures Lower(s[k]) == Lower(t[k]) <==> SameLetter(s[k], name[k])
      {
        assert t[k] == name[k] as int;
      }
      if Spells(s, name) {
        assert forall k :: 0 <= k < |s| ==> SameLetter(s[k], name[k]);
      }
    }
  }

  lemma SpellsReason(s: seq<byte>, i: nat)
    requires i < 11
    ensures EqualFold(s, Reason(i)) <==> Spells(s, REASONS[i])
  {
    ReasonIs(i);
    SpellsName(s, REASONS[i]);
  }

  lemma SpellsOne(s: seq<byte>, i: nat, j: nat)
    requires i < 11 && j < 11 && Spells(s, REASONS[i]) && Spells(s, REASONS[j])
    ensures i == j
  {
    SpellsReason(s, i);
    SpellsReason(s, j);
    FoldTogether(s, Reason(i), Reason(j));
    ReasonsDiffer(i, j);
  }

  lemma FoldTogether(s: seq<byte>, a: seq<byte>, b: seq<byte>)
    requires EqualFold(s, a) && EqualFold(s, b)
    ensures EqualFold(a, b)
  {
    forall i | 0 <= i < |a|
      ensures Lower(a[i]) == Lower(b[i])
    {
      assert Lower(s[i]) == Lower(a[i]) && Lower(s[i]) == Lower(b[i]);
    }
  }

  /** The search finds the one reason that is spelled, whatever the letters' case. */
  lemma {:induction false} FindsSpelled(s: seq<byte>, from: nat, n: nat)
    requires from <= n <= 11
    ensures FindReason(s, from, n) < n ==> Spells(s, REASONS[FindReason(s, from, n)])
    ensures forall i {:trigger REASONS[i]} :: from <= i < n && Spells(s, REASONS[i]) ==> FindReason(s, from, n) == i
    decreases n - from
  {
    if from < n {
      SpellsReason(s, from);
      FindsSpelled(s, from + 1, n);
      forall i {:trigger REASONS[i]} | from <= i < n && Spells(s, REASONS[i])
        ensures FindReason(s, from, n) == i
      {
        if EqualFold(s, Reason(from)) { SpellsOne(s, from, i); }
      }
    }
  }

  // ---------- printing ----------

  /** Which arguments a revocation takes. */
  predicate TakesArgument(oidOk: OidFn, revType: RevType, arg: CString) {
    match revType
    case RevNone => true
    case RevValid => true
    case RevCrlReason => exists i :: 0 <= i < 8 && Spells(arg, REASONS[i])
    case RevHold => oidOk(arg)
    case RevKeyCompromise => GeneralizedOk(arg)
    case RevCaCompromise => GeneralizedOk(arg)
  }

  /** What is printed: the time, and behind commas the reason in the letters of the table and
      the argument as it was given. */
  predicate IsPrinted(revType: RevType, arg: CString, revtm: CString, text: seq<byte>) {
    match revType
    case RevNone => text == revtm
    case RevValid => text == revtm
    case RevCrlReason =>
      exists i :: 0 <= i < 8 && Spells(arg, REASONS[i]) && text == revtm + [0x2C] + Ascii(REASONS[i])
    case RevHold => text == revtm + [0x2C] + Ascii("holdInstruction") + [0x2C] + arg
    case RevKeyCompromise => text == revtm + [0x2C] + Ascii("keyTime") + [0x2C] + arg
    case RevCaCompromise => text == revtm + [0x2C] + Ascii("CAkeyTime") + [0x2C] + arg
  }

  lemma PrintedExactly(oidOk: OidFn, revType: RevType, arg: CString, revtm: CString)
    ensures var r := RevocationText(oidOk, revType, arg, revtm);
            && (r.Some? <==> TakesArgument(oidOk, revType, arg))
            && (r.Some? ==> IsPrinted(revType, arg, revtm, r.value))
  {
    match revType
    case RevNone => assert revtm + [] == revtm;
    case RevValid => assert revtm + [] == revtm;
    case RevCrlReason => PrintedReason(oidOk, arg, revtm);
    case RevHold => TwoCommas(revtm, Reason(8), arg);
    case RevKeyCompromise => TwoCommas(revtm, Reason(9), arg);
    case RevCaCompromise => TwoCommas(revtm, Reason(10), arg);
  }

  lemma TwoCommas(revtm: CString, reason: CString, arg: CString)
    ensures revtm + ([COMMA] + reason + ([COMMA] + arg)) == revtm + [0x2C] + reason + [0x2C] + arg
  {
  }

  lemma PrintedReason(oidOk: OidFn, arg: CString, revtm: CString)
    ensures var r := RevocationText(oidOk, RevCrlReason, arg, revtm);
            && (r.Some? <==> TakesArgument(oidOk, RevCrlReason, arg))
            && (r.Some? ==> IsPrinted(RevCrlReason, arg, revtm, r.value))
  {
    FindsSpelled(arg, 0, 8);
    var i := FindReason(arg, 0, 8);
    if i < 8 {
      ReasonIs(i);
      assert revtm + ([COMMA] + Reason(i)) == revtm + [0x2C] + Ascii(REASONS[i]);
    }
  }

  // ---------- reading ----------

  /** A field of up to three parts. */
  function FieldOf(time: CString, reason: Option<CString>, arg: Option<CString>): CString {
    if reason.None? then time
    else if arg.None? then time + [0x2C] + reason.value
    else time + [0x2C] + reason.value + [0x2C] + arg.value
  }

  predicate AreParts(time: CString, reason: Option<CString>, arg: Option<CString>) {
    && 0x2C !in time && (reason.Some? ==> 0x2C !in reason.value) && (arg.Some? ==> reason.Some?)
  }

  /** Every text is a field in exactly one way. */
  lemma EveryFieldHasParts(s: CString) returns (time: CString, reason: Option<CString>, arg: Option<CString>)
    ensures AreParts(time, reason, arg) && s == FieldOf(time, reason, arg)
  {
    var i := CommaAt(s);
    time, reason, arg := s[..i], None, None;
    if i < |s| {
      RestIsText(s, i + 1);
      var rest: CString := s[i + 1..];
      reason, arg := CutAtComma(rest);
      assert s == time + [0x2C] + rest;
    } else {
      assert time == s;
    }
  }

  lemma CutAtComma(rest: CString) returns (reason: Option<CString>, arg: Option<CString>)
    ensures reason.Some? && 0x2C !in reason.value
    ensures rest == if arg.None? then reason.value else reason.value + [0x2C] + arg.value
  {
    var j := CommaAt(rest);
    var head: CString := rest[..j];
    reason, arg := Some(head), None;
    if j < |rest| {
      RestIsText(rest, j + 1);
      var tail: CString := rest[j + 1..];
      arg := Some(tail);
      assert rest == head + [0x2C] + tail;
    } else {
      assert head == rest;
    }
  }

  lemma SplitsInParts(time: CString, reason: Option<CString>, arg: Option<CString>)
    requires AreParts(time, reason, arg)
    ensures SplitField(FieldOf(time, reason, arg)) == Parts(time, reason, arg)
  {
    if reason.None? {
      NoCommaAt(time);
    } else if arg.None? {
      assert FieldOf(time, reason, arg) == time + ([COMMA] + reason.value);
      SplitAfter(time, reason.value);
      NoCommaAt(reason.value);
    } else {
      var rest := reason.value + ([COMMA] + arg.value);
      assert FieldOf(time, reason, arg) == time + ([COMMA] + rest);
      SplitAfter(time, rest);
      CommaAfter(reason.value, arg.value);
    }
  }

  /** What a field means whose reason spells name `i`; the codes are those of section 5.3.1
      of RFC 5280. */
  function MeaningOf(oidOk: OidFn, time: CString, i: nat, arg: Option<CString>): Option<Revocation> {
    if i < 7 then Some(Revocation(time, i, None, None))
    else if i == 7 then Some(Revocation(time, 8, None, None))
    else if arg.None? then None
    else if i == 8 then if oidOk(arg.value) then Some(Revocation(time, 6, arg, None)) else None
    else if !GeneralizedOk(arg.value) then None
    else if i == 9 then Some(Revocation(time, 1, None, arg))
    else Some(Revocation(time, 2, None, arg))
  }

  lemma ReadSpelled(oidOk: OidFn, p: Parts, i: nat)
    requires UtcOk(p.time) && p.reason.Some? && i < 11 && Spells(p.reason.value, REASONS[i])
    ensures UnpackParts(oidOk, p) == MeaningOf(oidOk, p.time, i, p.arg)
  {
    FindsSpelled(p.reason.value, 0, 11);
  }

  lemma ReadUnspelled(oidOk: OidFn, p: Parts)
    requires p.reason.Some? && forall i {:trigger REASONS[i]} :: 0 <= i < 11 ==> !Spells(p.reason.value, REASONS[i])
    ensures UnpackParts(oidOk, p) == None
  {
    FindsSpelled(p.reason.value, 0, 11);
  }

  /** What reading makes of every field. */
  lemma ReadExactly(oidOk: OidFn, time: CString, reason: Option<CString>, arg: Option<CString>)
    requires AreParts(time, reason, arg)
    ensures var s := FieldOf(time, reason, arg);
            && TimeOf(s) == (if UtcOk(time) then Some(time) else None)
            && (!UtcOk(time) ==> Unpack(oidOk, s) == None)
            && (UtcOk(time) && reason.None? ==> Unpack(oidOk, s) == Some(Revocation(time, -1, None, None)))
            && (UtcOk(time) && reason.Some? ==>
                  && (forall i {:trigger REASONS[i]} :: 0 <= i < 11 && Spells(reason.value, REASONS[i]) ==>
                        Unpack(oidOk, s) == MeaningOf(oidOk, time, i, arg))
                  && ((forall i {:trigger REASONS[i]} :: 0 <= i < 11 ==> !Spells(reason.value, REASONS[i])) ==>
                        Unpack(oidOk, s) == None))
  {
    SplitsInParts(time, reason, arg);
    var p := Parts(time, reason, arg);
    if UtcOk(time) && reason.Some? {
      forall i {:trigger REASONS[i]} | 0 <= i < 11 && Spells(reason.value, REASONS[i])
        ensures UnpackParts(oidOk, p) == MeaningOf(oidOk, time, i, arg)
      {
        ReadSpelled(oidOk, p, i);
      }
      if forall i {:trigger REASONS[i]} :: 0 <= i < 11 ==> !Spells(reason.value, REASONS[i]) {
        ReadUnspelled(oidOk, p);
      }
    }
  }
}

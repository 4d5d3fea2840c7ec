/** The revocation field of a database row, "time[,reason[,argument]]": `make_revocation_str`
    prints it and `unpack_revinfo` reads it. */
module RevInfo {
  import opened Asn1Time
  import opened Bytes

  datatype RevType = RevValid | RevNone | RevCrlReason | RevHold | RevKeyCompromise | RevCaCompromise

  /** Whether `OBJ_txt2obj` knows a text as an object identifier. */
  type OidFn = CString -> bool

  const COMMA: byte := 0x2C
  const NO_STATUS: int := -1
  const REMOVE_FROM_CRL: int := 8
  const CERTIFICATE_HOLD: int := 6
  const KEY_COMPROMISE: int := 1
  const CA_COMPROMISE: int := 2

  const NUM_REASONS: nat := 11

  predicate IsLetter(c: char) { 'A' <= c <= 'Z' || 'a' <= c <= 'z' }

  /** `crl_reasons`: eight reasons, and three pseudo reasons. */
  function ReasonName(i: nat): (name: string)
    requires i < NUM_REASONS
    ensures forall k :: 0 <= k < |name| ==> IsLetter(name[k])
  {
    if i < 4 then EarlyReasonName(i)
    else if i < 8 then LateReasonName(i)
    else if i == 8 then "holdInstruction"
    else if i == 9 then "keyTime"
    else "CAkeyTime"
  }

  function EarlyReasonName(i: nat): (name: string)
    requires i < 4
    ensures forall k :: 0 <= k < |name| ==> IsLetter(name[k])
  {
    if i == 0 then "unspecified"
    else if i == 1 then "keyCompromise"
    else if i == 2 then "CACompromise"
    else "affiliationChanged"
  }

  function LateReasonName(i: nat): (name: string)
    requires 4 <= i < 8
    ensures forall k :: 0 <= k < |name| ==> IsLetter(name[k])
  {
    if i == 4 then "superseded"
    else if i == 5 then "cessationOfOperation"
    else if i == 6 then "certificateHold"
    else "removeFromCRL"
  }

  function Reason(i: nat): (name: CString)
    requires i < NUM_REASONS
    ensures COMMA !in name
  {
    Ascii(ReasonName(i))
  }

  function Lower(c: byte): byte { if 0x41 <= c <= 0x5A then c + 0x20 else c }

  /** `OPENSSL_strcasecmp(a, b) == 0` */
  predicate EqualFold(a: seq<byte>, b: seq<byte>) {
    |a| == |b| && forall i :: 0 <= i < |a| ==> Lower(a[i]) == Lower(b[i])
  }

  /** The first of the reasons `from` to `n - 1` with this name, or `n`. */
  function FindReason(s: seq<byte>, from: nat, n: nat): (i: nat)
    requires from <= n <= NUM_REASONS
    ensures from <= i <= n && (i < n ==> EqualFold(s, Reason(i)))
    decreases n - from, s
  {
    if from == n || EqualFold(s, Reason(from)) then from else FindReason(s, from + 1, n)
  }

  /** The lengths of the names, and their first letters where two lengths are the same. */
  predicate HasShape(i: nat, length: nat, first: byte) {
    match i
    case 0 => length == 11
    case 1 => length == 13 && first == 0x6B
    case 2 => length == 12
    case 3 => length == 18
    case 4 => length == 10
    case 5 => length == 20
    case 6 => length == 15 && first == 0x63
    case 7 => length == 13 && first == 0x72
    case 8 => length == 15 && first == 0x68
    case 9 => length == 7
    case _ => length == 9
  }

  lemma EarlyShape(i: nat)
    requires i < 4
    ensures Reason(i) != [] && HasShape(i, |Reason(i)|, Reason(i)[0])
  {
  }

  lemma LateShape(i: nat)
    requires 4 <= i < NUM_REASONS
    ensures Reason(i) != [] && HasShape(i, |Reason(i)|, Reason(i)[0])
  {
  }

  lemma ShapesDiffer(i: nat, j: nat, length: nat, a: byte, b: byte)
    requires i < NUM_REASONS && j < NUM_REASONS && HasShape(i, length, a) && HasShape(j, length, b)
    requires Lower(a) == Lower(b)
    ensures i == j
  {
  }

  /** No two reasons have the same name. */
  lemma ReasonsDiffer(i: nat, j: nat)
    requires i < NUM_REASONS && j < NUM_REASONS && EqualFold(Reason(i), Reason(j))
    ensures i == j
  {
    if i < 4 { EarlyShape(i); } else { LateShape(i); }
    if j < 4 { EarlyShape(j); } else { LateShape(j); }
    ShapesDiffer(i, j, |Reason(i)|, Reason(i)[0], Reason(j)[0]);
  }

  /** A reason is found under its own name. */
  lemma {:induction false} FindOwnReason(k: nat, from: nat, n: nat)
    requires from <= k < n <= NUM_REASONS
    ensures FindReason(Reason(k), from, n) == k
    decreases n - from
  {
    if EqualFold(Reason(k), Reason(from)) {
      ReasonsDiffer(k, from);
    } else {
      FindOwnReason(k, from + 1, n);
    }
  }

  // ---------- printing ----------

  /** The reason and the argument that are printed behind the time. */
  datatype Extra = NoExtra | JustReason(reason: CString) | ReasonAndArg(reason: CString, arg: CString)

  function ExtraOf(oidOk: OidFn, revType: RevType, arg: CString): Option<Extra> {
    match revType
    case RevNone => Some(NoExtra)
    case RevValid => Some(NoExtra)
    case RevCrlReason =>
      var i := FindReason(arg, 0, 8);
      if i < 8 then Some(JustReason(Reason(i))) else None
    case RevHold => if oidOk(arg) then Some(ReasonAndArg(Reason(8), arg)) else None
    case RevKeyCompromise => if GeneralizedOk(arg) then Some(ReasonAndArg(Reason(9), arg)) else None
    case RevCaCompromise => if GeneralizedOk(arg) then Some(ReasonAndArg(Reason(10), arg)) else None
  }

  function ExtraText(e: Extra): CString {
    match e
    case NoExtra => []
    case JustReason(r) => [COMMA] + r
    case ReasonAndArg(r, a) => [COMMA] + r + ([COMMA] + a)
  }

  function RevocationText(oidOk: OidFn, revType: RevType, arg: CString, revtm: CString): Option<CString> {
    var e := ExtraOf(oidOk, revType, arg);
    if e.None? then None else Some(revtm + ExtraText(e.value))
  }

  /** `make_revocation_str`; `revtm` is the text of the current time. The buffer has exactly
      the size that was computed for it, and nothing is cut. */
  method MakeRevocationStr(oidOk: OidFn, revType: RevType, arg: CString, revtm: CString)
    returns (str: Option<CString>)
    ensures str == RevocationText(oidOk, revType, arg, revtm)
  {
    var reason: Option<CString>, other: Option<CString> := None, None;
    match revType {
      case RevNone =>
      case RevValid =>
      case RevCrlReason =>
        var i := 0;
        while i < 8
          invariant 0 <= i <= 8 && reason.None? && FindReason(arg, 0, 8) == FindReason(arg, i, 8)
        {
          if EqualFold(arg, Reason(i)) {
            reason := Some(Reason(i));
            break;
          }
          i := i + 1;
        }
        if reason.None? {
          return None;
        }
      case RevHold =>
        if !oidOk(arg) {
          return None;
        }
        reason := Some(Ascii("holdInstruction"));
        other := Some(arg);
      case RevKeyCompromise =>
        if !GeneralizedOk(arg) {
          return None;
        }
        other := Some(arg);
        reason := Some(Ascii("keyTime"));
      case RevCaCompromise =>
        if !GeneralizedOk(arg) {
          return None;
        }
        other := Some(arg);
        reason := Some(Ascii("CAkeyTime"));
    }
    ghost var e := ExtraOf(oidOk, revType, arg).value;
    assert e == if reason.None? then NoExtra else if other.None? then JustReason(reason.value)
                else ReasonAndArg(reason.value, other.value);
    var text := WriteRevocation(revtm, reason, other);
    str := Some(text);
  }

  /** A comma and what follows it. */
  method AppendPart(buf: array<byte>, part: CString)
    requires 0 in buf[..] && |Text(buf[..])| + 1 + |part| < buf.Length
    modifies buf
    ensures 0 in buf[..] && Text(buf[..]) == old(Text(buf[..])) + ([COMMA] + part)
  {
    AppendAll(buf, [COMMA]);
    AppendAll(buf, part);
  }

  method WriteRevocation(revtm: CString, reason: Option<CString>, other: Option<CString>) returns (text: CString)
    requires other.Some? ==> reason.Some?
    ensures text == revtm + ExtraText(if reason.None? then NoExtra else if other.None? then JustReason(reason.value)
                                      else ReasonAndArg(reason.value, other.value))
  {
    var i := |revtm| + 1;
    if reason.Some? {
      i := i + |reason.value| + 1;
    }
    if other.Some? {
      i := i + |other.value| + 1;
    }
    var str := new byte[i](_ => 0);
    TextUnique(str[..], []);
    AppendAll(str, revtm);
    assert Text(str[..]) == revtm;
    if reason.Some? {
      AppendPart(str, reason.value);
    }
    if other.Some? {
      AppendPart(str, other.value);
      assert revtm + ([COMMA] + reason.value) + ([COMMA] + other.value)
          == revtm + ([COMMA] + reason.value + ([COMMA] + other.value));
    }
    text := ReadString(str);
  }

  // ---------- reading ----------

  datatype Revocation = Revocation(time: CString, reason: int, hold: Option<CString>, invalidity: Option<CString>)

  /** Where the first comma is, or the length of the text. */
  function CommaAt(s: seq<byte>): (i: nat)
    ensures i <= |s| && COMMA !in s[..i] && (i < |s| ==> s[i] == COMMA)
  {
    if s == [] || s[0] == COMMA then 0 else
      var i := 1 + CommaAt(s[1..]);
      assert s[..i] == [s[0]] + s[1..][..i - 1];
      i
  }

  lemma CommaUnique(s: seq<byte>, head: seq<byte>, tail: seq<byte>)
    requires COMMA !in head && s == head + tail && (tail == [] || tail[0] == COMMA)
    ensures CommaAt(s) == |head|
  {
    var i := CommaAt(s);
    assert s[..Min(i, |head|)] == head[..Min(i, |head|)];
  }

  datatype Parts = Parts(time: CString, reason: Option<CString>, arg: Option<CString>)

  /** The parts between the commas; the last one keeps any further commas. */
  function SplitField(s: CString): Parts {
    var i := CommaAt(s);
    if i == |s| then Parts(s, None, None) else SplitRest(s[..i], s[i + 1..])
  }

  function SplitRest(time: CString, rest: CString): Parts {
    var j := CommaAt(rest);
    Parts(time, Some(rest[..j]), if j == |rest| then None else Some(rest[j + 1..]))
  }

  /** What a field means whose reason is number `i` of the table. */
  function Interpret(oidOk: OidFn, time: CString, i: nat, arg: Option<CString>): Option<Revocation> {
    if i == NUM_REASONS then None
    else if i == 7 then Some(Revocation(time, REMOVE_FROM_CRL, None, None))
    else if i == 8 then
      if arg.None? || !oidOk(arg.value) then None else Some(Revocation(time, CERTIFICATE_HOLD, arg, None))
    else if i == 9 || i == 10 then
      if arg.None? || !GeneralizedOk(arg.value) then None
      else Some(Revocation(time, if i == 9 then KEY_COMPROMISE else CA_COMPROMISE, None, arg))
    else Some(Revocation(time, i, None, None))
  }

  function UnpackParts(oidOk: OidFn, p: Parts): Option<Revocation> {
    if !UtcOk(p.time) then None
    else if p.reason.None? then Some(Revocation(p.time, NO_STATUS, None, None))
    else Interpret(oidOk, p.time, FindReason(p.reason.value, 0, NUM_REASONS), p.arg)
  }

  /** `unpack_revinfo` */
  function Unpack(oidOk: OidFn, s: CString): Option<Revocation> { UnpackParts(oidOk, SplitField(s)) }

  predicate ExtensionsFit(r: Revocation) {
    && (r.hold.None? || r.invalidity.None?)
    && (r.hold.Some? ==> r.reason == CERTIFICATE_HOLD)
    && (r.invalidity.Some? ==> r.reason == KEY_COMPROMISE || r.reason == CA_COMPROMISE)
    && UtcOk(r.time) && (r.reason == NO_STATUS || 0 <= r.reason <= 6 || r.reason == 8)
  }

  lemma InterpretedExtensionsFit(oidOk: OidFn, time: CString, i: nat, arg: Option<CString>)
    requires UtcOk(time) && i <= NUM_REASONS && Interpret(oidOk, time, i, arg).Some?
    ensures ExtensionsFit(Interpret(oidOk, time, i, arg).value)
  {
  }

  /** At most one of the two extensions comes out of a field, and only with its own reason. */
  lemma NotBothExtensions(oidOk: OidFn, s: CString)
    requires Unpack(oidOk, s).Some?
    ensures ExtensionsFit(Unpack(oidOk, s).value)
  {
    var p := SplitField(s);
    if p.reason.Some? {
      InterpretedExtensionsFit(oidOk, p.time, FindReason(p.reason.value, 0, NUM_REASONS), p.arg);
    }
  }

  /** The time of a field, which is known even if the rest is refused. */
  function TimeOf(s: CString): Option<CString> {
    var p := SplitField(s);
    if UtcOk(p.time) then Some(p.time) else None
  }

  method UnpackRevinfo(oidOk: OidFn, str: CString) returns (r: Option<Revocation>, revtm: Option<CString>)
    ensures r == Unpack(oidOk, str) && revtm == TimeOf(str)
  {
    r, revtm := None, None;
    var p := Split(str);
    var rtimeStr, reasonStr, argStr := p.time, p.reason, p.arg;
    if !UtcOk(rtimeStr) {
      return;
    }
    revtm := Some(rtimeStr);
    var reasonCode := NO_STATUS;
    var hold: Option<CString>, compTime: Option<CString> := None, None;
    if reasonStr.Some? {
      var i := 0;
      while i < NUM_REASONS
        invariant 0 <= i <= NUM_REASONS && reasonCode == NO_STATUS
        invariant FindReason(reasonStr.value, 0, NUM_REASONS) == FindReason(reasonStr.value, i, NUM_REASONS)
      {
        if EqualFold(reasonStr.value, Reason(i)) {
          reasonCode := i;
          break;
        }
        i := i + 1;
      }
      if reasonCode == NO_STATUS {
        return;
      }
      if reasonCode == 7 {
        reasonCode := REMOVE_FROM_CRL;
      } else if reasonCode == 8 {
        if argStr.None? {
          return;
        }
        reasonCode := CERTIFICATE_HOLD;
        if !oidOk(argStr.value) {
          return;
        }
        hold := argStr;
      } else if reasonCode == 9 || reasonCode == 10 {
        if argStr.None? {
          return;
        }
        if !GeneralizedOk(argStr.value) {
          return;
        }
        compTime := argStr;
        if reasonCode == 9 {
          reasonCode := KEY_COMPROMISE;
        } else {
          reasonCode := CA_COMPROMISE;
        }
      }
    }
    r := Some(Revocation(rtimeStr, reasonCode, hold, compTime));
  }

  /** `strchr(s, ',')`, as an index; the length of `s` stands for NULL. */
  method StrchrComma(s: CString) returns (i: nat)
    ensures i == CommaAt(s)
  {
    i := 0;
    while i < |s| && s[i] != COMMA
      invariant i <= |s| && COMMA !in s[..i]
    {
      assert s[..i + 1] == s[..i] + [s[i]];
      i := i + 1;
    }
    assert s == s[..i] + s[i..];
    CommaUnique(s, s[..i], s[i..]);
  }

  lemma RestIsText(s: CString, i: nat)
    requires i <= |s|
    ensures 0 !in s[i..]
  {
  }

  method Split(str: CString) returns (parts: Parts)
    ensures parts == SplitField(str)
  {
    var p := StrchrComma(str);
    var rtimeStr: CString := str[..p];
    parts := Parts(rtimeStr, None, None);
    assert p == |str| ==> rtimeStr == str;
    if p < |str| {
      RestIsText(str, p + 1);
      var rest: CString := str[p + 1..];
      var q := StrchrComma(rest);
      var reasonStr: CString := rest[..q];
      parts := Parts(rtimeStr, Some(reasonStr), None);
      if q < |rest| {
        RestIsText(rest, q + 1);
        var argStr: CString := rest[q + 1..];
        parts := Parts(rtimeStr, Some(reasonStr), Some(argStr));
      }
    }
  }

  // ---------- the round trip ----------

  lemma CommaAfter(head: seq<byte>, tail: seq<byte>)
    requires COMMA !in head
    ensures var s := head + ([COMMA] + tail);
            CommaAt(s) == |head| < |s| && s[..|head|] == head && s[|head| + 1..] == tail
  {
    CommaUnique(head + ([COMMA] + tail), head, [COMMA] + tail);
  }

  lemma NoCommaAt(s: seq<byte>)
    requires COMMA !in s
    ensures CommaAt(s) == |s| && s[..|s|] == s
  {
  }

  function PartsOf(time: CString, e: Extra): Parts {
    match e
    case NoExtra => Parts(time, None, None)
    case JustReason(r) => Parts(time, Some(r), None)
    case ReasonAndArg(r, a) => Parts(time, Some(r), Some(a))
  }

  lemma SplitAfter(time: CString, rest: CString)
    requires COMMA !in time
    ensures SplitField(time + ([COMMA] + rest)) == SplitRest(time, rest)
  {
    CommaAfter(time, rest);
  }

  lemma SplitPrinted(time: CString, e: Extra)
    requires COMMA !in time && (!e.NoExtra? ==> COMMA !in e.reason)
    ensures SplitField(time + ExtraText(e)) == PartsOf(time, e)
  {
    match e
    case NoExtra =>
      assert time + ExtraText(e) == time;
      NoCommaAt(time);
    case JustReason(r) =>
      SplitAfter(time, r);
      NoCommaAt(r);
    case ReasonAndArg(r, a) =>
      assert ExtraText(e) == [COMMA] + (r + ([COMMA] + a));
      SplitAfter(time, r + ([COMMA] + a));
      CommaAfter(r, a);
  }

  /** The reason code of section 5.3.1 of RFC 5280 that a revocation asks for. */
  function ReasonCode(revType: RevType, arg: CString): int
    requires revType.RevCrlReason? ==> FindReason(arg, 0, 8) < 8
  {
    match revType
    case RevNone => NO_STATUS
    case RevValid => NO_STATUS
    case RevCrlReason => var i := FindReason(arg, 0, 8); if i == 7 then REMOVE_FROM_CRL else i
    case RevHold => CERTIFICATE_HOLD
    case RevKeyCompromise => KEY_COMPROMISE
    case RevCaCompromise => CA_COMPROMISE
  }

  function Requested(revType: RevType, arg: CString, time: CString): Revocation
    requires revType.RevCrlReason? ==> FindReason(arg, 0, 8) < 8
  {
    Revocation(time, ReasonCode(revType, arg),
               if revType.RevHold? then Some(arg) else None,
               if revType.RevKeyCompromise? || revType.RevCaCompromise? then Some(arg) else None)
  }

  /** What is printed is read back, for every revocation with an accepted argument, if and
      only if the time has the two-digit form: the printer writes four-digit years from
      2050 on, and the reader takes only the other form. */
  lemma PrintedRevocationReadsBack(oidOk: OidFn, revType: RevType, arg: CString, now: Tm)
    requires IsTime(now) && RevocationText(oidOk, revType, arg, TimeText(now)).Some?
    ensures Unpack(oidOk, RevocationText(oidOk, revType, arg, TimeText(now)).value)
         == if HasUtcForm(now) then Some(Requested(revType, arg, TimeText(now))) else None
  {
    var time, e := TimeText(now), ExtraOf(oidOk, revType, arg).value;
    TimeTextIsUtc(now);
    TimeTextIsTime(now);
    TimeIsTimeChars(time);
    SplitPrinted(time, e);
    PrintedPartsReadBack(oidOk, revType, arg, time);
  }

  lemma ReasonReadsBack(oidOk: OidFn, time: CString, k: nat, arg: Option<CString>)
    requires k < NUM_REASONS
    ensures UnpackParts(oidOk, Parts(time, Some(Reason(k)), arg))
         == if UtcOk(time) then Interpret(oidOk, time, k, arg) else None
  {
    FindOwnReason(k, 0, NUM_REASONS);
  }

  lemma PrintedPartsReadBack(oidOk: OidFn, revType: RevType, arg: CString, time: CString)
    requires ExtraOf(oidOk, revType, arg).Some?
    ensures UnpackParts(oidOk, PartsOf(time, ExtraOf(oidOk, revType, arg).value))
         == if UtcOk(time) then Some(Requested(revType, arg, time)) else None
  {
    match revType
    case RevNone =>
    case RevValid =>
    case RevCrlReason => ReasonReadsBack(oidOk, time, FindReason(arg, 0, 8), None);
    case RevHold => ReasonReadsBack(oidOk, time, 8, Some(arg));
    case RevKeyCompromise => ReasonReadsBack(oidOk, time, 9, Some(arg));
    case RevCaCompromise => ReasonReadsBack(oidOk, time, 10, Some(arg));
  }
}

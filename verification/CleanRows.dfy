/** The rows that the program itself makes survive the trip through the file. */
module CleanRows {
  import opened Asn1Time
  import opened Bytes
  import opened Database
  import opened RevInfo
  import opened SerialHex
  import opened TxtDb

  /** A field that may stand before another one. */
  predicate FieldOk(f: seq<byte>) { NEWLINE !in f && !EndsInBackslash(f) }

  /** Object identifiers are known by dotted numbers and by names on one line. */
  ghost predicate OidsAreFields(oidOk: OidFn) { forall s: CString :: oidOk(s) ==> FieldOk(s) }

  /** What the file can hold of a certificate: its name stays on one line, and the bytes of its
      expiry date, which need not be a time, neither end the line nor escape what follows. */
  predicate CertOk(c: Cert) { NEWLINE !in c.name && FieldOk(c.exp) }

  lemma CleanByField(r: Row)
    ensures IsClean(r) <==>
              && FieldOk(r.typ) && FieldOk(r.exp) && FieldOk(r.rev) && FieldOk(r.serial) && FieldOk(r.file)
              && NEWLINE !in r.name && (r.typ == [] || r.typ[0] != HASH_SIGN)
  {
    var fs := Fields(r);
    assert fs[0] == r.typ && fs[1] == r.exp && fs[2] == r.rev && fs[3] == r.serial && fs[4] == r.file
        && fs[5] == r.name;
  }

  lemma TimeIsField(s: seq<byte>)
    requires TimeOk(s)
    ensures FieldOk(s)
  {
    TimeIsTimeChars(s);
  }

  lemma SerialIsField(n: int)
    ensures FieldOk(SerialText(n))
  {
  }

  lemma ReasonIsField(i: nat)
    requires i < NUM_REASONS
    ensures FieldOk(Reason(i))
  {
  }

  lemma AppendedIsField(a: seq<byte>, b: seq<byte>)
    requires FieldOk(a) && FieldOk(b)
    ensures FieldOk(a + b)
  {
  }

  lemma ExtraIsField(oidOk: OidFn, revType: RevType, arg: CString)
    requires OidsAreFields(oidOk) && ExtraOf(oidOk, revType, arg).Some?
    ensures FieldOk(ExtraText(ExtraOf(oidOk, revType, arg).value))
  {
    match ExtraOf(oidOk, revType, arg).value
    case NoExtra =>
    case JustReason(r) =>
      ReasonIsField(FindReason(arg, 0, 8));
      AppendedIsField([COMMA], r);
    case ReasonAndArg(r, a) =>
      assert FieldOk(a) by { if !revType.RevHold? { TimeIsField(a); } }
      ReasonIsField(if revType.RevHold? then 8 else if revType.RevKeyCompromise? then 9 else 10);
      AppendedIsField([COMMA], r);
      AppendedIsField([COMMA], a);
      AppendedIsField([COMMA] + r, [COMMA] + a);
  }

  lemma RevocationIsField(oidOk: OidFn, revType: RevType, arg: CString, now: Tm)
    requires OidsAreFields(oidOk) && IsTime(now) && RevocationText(oidOk, revType, arg, TimeText(now)).Some?
    ensures FieldOk(RevocationText(oidOk, revType, arg, TimeText(now)).value)
  {
    TimeTextIsTime(now);
    TimeIsField(TimeText(now));
    ExtraIsField(oidOk, revType, arg);
    AppendedIsField(TimeText(now), ExtraText(ExtraOf(oidOk, revType, arg).value));
  }

  lemma NewRowIsClean(c: Cert)
    ensures IsClean(NewRow(c)) <==> CertOk(c)
  {
    CleanByField(NewRow(c));
    SerialIsField(c.serial);
  }

  lemma RevokedRowIsClean(oidOk: OidFn, revType: RevType, arg: CString, now: Tm, r: Row)
    requires OidsAreFields(oidOk) && IsTime(now) && RevocationText(oidOk, revType, arg, TimeText(now)).Some?
    requires IsClean(r)
    ensures IsClean(MarkRevoked(r, RevocationText(oidOk, revType, arg, TimeText(now)).value))
  {
    var s := MarkRevoked(r, RevocationText(oidOk, revType, arg, TimeText(now)).value);
    RevocationIsField(oidOk, revType, arg, now);
    CleanByField(r);
    CleanByField(s);
  }

  lemma RevokedNewRowIsClean(c: Cert, rev: CString)
    requires FieldOk(rev)
    ensures IsClean(MarkRevoked(NewRow(c), rev)) <==> CertOk(c)
  {
    var s := MarkRevoked(NewRow(c), rev);
    assert s == Row([TYPE_REV], c.exp, rev, SerialText(c.serial), UNKNOWN_FILE, RowName(c));
    SerialIsField(c.serial);
    CleanByField(s);
  }

  lemma ExpiredRowsAreClean(due: CString -> bool, rows: seq<Row>)
    requires AllClean(rows)
    ensures AllClean(ExpireAll(due, rows))
  {
    forall i | 0 <= i < |rows|
      ensures IsClean(Expire(due, rows[i]))
    {
      assert IsClean(rows[i]);
      CleanByField(rows[i]);
      CleanByField(Expire(due, rows[i]));
    }
  }

  /** `do_revoke` leaves rows that can be written and read back, exactly if it had no need to
      insert a certificate that the file cannot hold. */
  lemma RevokeKeepsClean(oidOk: OidFn, now: Tm, db: Db, c: Cert, revType: RevType, arg: CString)
    requires OidsAreFields(oidOk) && IsTime(now) && IsIndexed(db) && SerialsUnique(db.rows)
    requires AllClean(db.rows) && Revoke(oidOk, TimeText(now), db, c, revType, arg).0
    ensures AllClean(Revoke(oidOk, TimeText(now), db, c, revType, arg).1.rows)
       <==> FindSerial(db.rows, SerialText(c.serial)).Some? || CertOk(c)
  {
    RevokeResult(oidOk, TimeText(now), db, c, revType, arg);
    var rows, at := Revoke(oidOk, TimeText(now), db, c, revType, arg).1.rows, Place(db, c);
    NewRowIsClean(c);
    if revType != RevValid {
      RevocationIsField(oidOk, revType, arg, now);
      RevokedNewRowIsClean(c, RevocationText(oidOk, revType, arg, TimeText(now)).value);
      if at < |db.rows| { RevokedRowIsClean(oidOk, revType, arg, now, db.rows[at]); }
    }
    CleanButOne(db.rows, rows, at);
  }

  lemma CleanButOne(before: seq<Row>, rows: seq<Row>, at: nat)
    requires AllClean(before) && at < |rows| <= |before| + 1 && at <= |before| <= |rows|
    requires |rows| == |before| + 1 ==> at == |before|
    requires forall i :: 0 <= i < |before| && i != at ==> rows[i] == before[i]
    ensures AllClean(rows) <==> IsClean(rows[at])
  {
  }
}

/** The certificate database as a value: its rows, its indices, and the changes that
    `ca` makes to it. */
module Database {
  import opened Asn1Time
  import opened Bytes
  import opened RevInfo
  import opened SerialHex
  import opened TxtDb

  const TYPE_REV: byte := 0x52
  const TYPE_EXP: byte := 0x45
  const TYPE_VAL: byte := 0x56

  /** `row[DB_type][0]` */
  function Type(r: Row): byte { if r.typ == [] then 0 else r.typ[0] }

  predicate IsRevoked(r: Row) { Type(r) == TYPE_REV }

  // ---------- the load check ----------

  /** What the check demands of one row. */
  predicate RowOk(oidOk: OidFn, r: Row) {
    && (if IsRevoked(r) then Unpack(oidOk, r.rev).Some? else r.rev == [])
    && TimeOk(r.exp)
    && SerialOk(r.serial)
  }

  predicate RowsOk(oidOk: OidFn, rows: seq<Row>) { forall i :: 0 <= i < |rows| ==> RowOk(oidOk, rows[i]) }

  /** The key of the serial index. */
  function Key(r: Row): seq<byte> { StripZeros(r.serial) }

  predicate SerialsUnique(rows: seq<Row>) {
    forall i, j :: 0 <= i < j < |rows| ==> Key(rows[i]) != Key(rows[j])
  }

  /** The name index holds valid rows only. */
  predicate NamesUnique(rows: seq<Row>) {
    forall i, j :: 0 <= i < j < |rows| && Type(rows[i]) == TYPE_VAL && Type(rows[j]) == TYPE_VAL ==>
      rows[i].name != rows[j].name
  }

  /** Rows that pass the check and can be indexed. */
  predicate Accepted(oidOk: OidFn, unique: bool, rows: seq<Row>) {
    RowsOk(oidOk, rows) && SerialsUnique(rows) && (unique ==> NamesUnique(rows))
  }

  // ---------- the indexed database ----------

  /** `nameIndex` tells which rows the name index holds: those that were valid when they
      were loaded or inserted. It is only there if subjects must be unique. */
  datatype Db = Db(rows: seq<Row>, unique: bool, nameIndex: set<nat>)

  function Indexed(unique: bool, rows: seq<Row>): Db {
    Db(rows, unique, if unique then set i: nat | i < |rows| && Type(rows[i]) == TYPE_VAL else {})
  }

  predicate IsIndexed(db: Db) {
    && (forall i :: i in db.nameIndex ==> i < |db.rows|)
    && (db.unique ==> forall i: nat :: i < |db.rows| && Type(db.rows[i]) == TYPE_VAL ==> i in db.nameIndex)
    && (!db.unique ==> db.nameIndex == {})
  }

  /** `TXT_DB_get_by_index(db, DB_serial, ...)` */
  function FindSerial(rows: seq<Row>, serial: seq<byte>): (r: Option<nat>)
    ensures r.Some? ==> r.value < |rows| && Key(rows[r.value]) == StripZeros(serial)
    ensures r.None? ==> forall i :: 0 <= i < |rows| ==> Key(rows[i]) != StripZeros(serial)
  {
    if rows == [] then None
    else if Key(rows[|rows| - 1]) == StripZeros(serial) then Some(|rows| - 1)
    else FindSerial(rows[..|rows| - 1], serial)
  }

  lemma FindSerialUnique(rows: seq<Row>, serial: seq<byte>, i: nat)
    requires SerialsUnique(rows) && i < |rows| && Key(rows[i]) == StripZeros(serial)
    ensures FindSerial(rows, serial) == Some(i)
  {
  }

  /** `TXT_DB_get_by_index(db, DB_name, ...)` finds something */
  predicate HasName(db: Db, name: seq<byte>) {
    exists i :: i in db.nameIndex && i < |db.rows| && db.rows[i].name == name
  }

  /** `TXT_DB_insert` */
  function Insert(db: Db, r: Row): Option<Db> {
    if FindSerial(db.rows, r.serial).Some? then None
    else if db.unique && Type(r) == TYPE_VAL && HasName(db, r.name) then None
    else Some(db.(rows := db.rows + [r],
                  nameIndex := if db.unique && Type(r) == TYPE_VAL then db.nameIndex + {|db.rows|} else db.nameIndex))
  }

  lemma InsertKeepsUnique(db: Db, r: Row)
    requires IsIndexed(db) && SerialsUnique(db.rows) && (db.unique ==> NamesUnique(db.rows)) && Insert(db, r).Some?
    ensures var d := Insert(db, r).value;
            IsIndexed(d) && SerialsUnique(d.rows) && (d.unique ==> NamesUnique(d.rows))
  {
  }

  // ---------- a row over time ----------

  /** What may have become of a row: expired if it was valid, revoked if it was not. */
  predicate Evolves(r: Row, s: Row) {
    && s.serial == r.serial && s.file == r.file && s.name == r.name
    && (IsRevoked(r) ==> s == r)
    && (IsRevoked(s) || s.rev == r.rev)
    && (s.typ == r.typ || IsRevoked(s) || (Type(r) == TYPE_VAL && Type(s) == TYPE_EXP))
    && (r.typ != [] ==> s.exp == r.exp)
  }

  /** A row as the program makes it. */
  predicate IsOwn(r: Row) { r.typ != [] && IsCanonical(r.serial) }

  /** No row is lost, moved or undone, and any further rows come behind, as the program makes
      them. */
  predicate Grows(a: seq<Row>, b: seq<Row>) {
    && |a| <= |b|
    && (forall i :: 0 <= i < |a| ==> Evolves(a[i], b[i]))
    && (forall i :: |a| <= i < |b| ==> IsOwn(b[i]))
  }

  lemma GrowsTransitive(a: seq<Row>, b: seq<Row>, c: seq<Row>)
    requires Grows(a, b) && Grows(b, c)
    ensures Grows(a, c)
  {
  }

  /** Every row has a status. */
  predicate HaveStatus(rows: seq<Row>) { forall i :: 0 <= i < |rows| ==> rows[i].typ != [] }

  lemma StatusStays(a: seq<Row>, b: seq<Row>)
    requires Grows(a, b) && HaveStatus(a)
    ensures HaveStatus(b)
  {
    forall i | 0 <= i < |b|
      ensures b[i].typ != []
    {
      if i < |a| { assert Evolves(a[i], b[i]); }
    }
  }

  /** Rows that have become revoked are rows that were found by their number. */
  predicate MarksFound(a: seq<Row>, b: seq<Row>) {
    |a| <= |b| && forall i :: 0 <= i < |a| && IsRevoked(b[i]) && !IsRevoked(a[i]) ==> IsCanonical(b[i].serial)
  }

  lemma MarksFoundTransitive(a: seq<Row>, b: seq<Row>, c: seq<Row>)
    requires Grows(a, b) && Grows(b, c) && MarksFound(a, b) && MarksFound(b, c)
    ensures MarksFound(a, c)
  {
    forall i | 0 <= i < |a| && IsRevoked(c[i]) && !IsRevoked(a[i])
      ensures IsCanonical(c[i].serial)
    {
      assert Evolves(b[i], c[i]);
    }
  }

  /** A serial is looked up under its own text, so only canonical rows are found. */
  lemma FoundRow(oidOk: OidFn, rows: seq<Row>, serial: int, k: nat)
    requires RowsOk(oidOk, rows) && SerialsUnique(rows) && k < |rows|
    ensures FindSerial(rows, SerialText(serial)) == Some(k)
        <==> SerialValue(rows[k].serial) == serial && IsCanonical(rows[k].serial)
  {
    var s, t := rows[k].serial, SerialText(serial);
    assert RowOk(oidOk, rows[k]);
    SerialTextDenotes(serial);
    FoundIfCanonical(s);
    if FindSerial(rows, t) == Some(k) {
      SameKeySameValue(s, t);
    }
    if SerialValue(s) == serial && IsCanonical(s) {
      FindSerialUnique(rows, t, k);
    }
  }

  /** Replacing a row by one that is not newly valid keeps the indices right. */
  lemma ReplaceKeepsUnique(db: Db, k: nat, s: Row)
    requires IsIndexed(db) && SerialsUnique(db.rows) && (db.unique ==> NamesUnique(db.rows))
    requires k < |db.rows| && Evolves(db.rows[k], s)
    ensures var d := db.(rows := db.rows[k := s]);
            && IsIndexed(d) && SerialsUnique(d.rows) && (d.unique ==> NamesUnique(d.rows))
            && Grows(db.rows, d.rows)
  {
  }

  // ---------- expiry: `do_updatedb` ----------

  /** `rrow[DB_type][0] = 'E'; rrow[DB_type][1] = '\0';` */
  function MarkExpired(r: Row): Row { r.(typ := [TYPE_EXP]) }

  predicate IsDue(due: CString -> bool, r: Row) { Type(r) == TYPE_VAL && due(r.exp) }

  function Expire(due: CString -> bool, r: Row): Row { if IsDue(due, r) then MarkExpired(r) else r }

  function ExpireAll(due: CString -> bool, rows: seq<Row>): (s: seq<Row>)
    ensures |s| == |rows|
  {
    seq(|rows|, i requires 0 <= i < |rows| => Expire(due, rows[i]))
  }

  function CountDue(due: CString -> bool, rows: seq<Row>): (n: nat)
    ensures n <= |rows|
  {
    if rows == [] then 0 else CountDue(due, rows[..|rows| - 1]) + if IsDue(due, rows[|rows| - 1]) then 1 else 0
  }

  lemma {:induction false} CountDueZero(due: CString -> bool, rows: seq<Row>)
    ensures CountDue(due, rows) == 0 <==> forall i :: 0 <= i < |rows| ==> !IsDue(due, rows[i])
  {
    if rows != [] { CountDueZero(due, rows[..|rows| - 1]); }
  }

  /** Expiring twice at the same time changes nothing the second time. */
  lemma ExpireIsIdempotent(due: CString -> bool, rows: seq<Row>)
    ensures var once := ExpireAll(due, rows);
            ExpireAll(due, once) == once && CountDue(due, once) == 0
  {
    var once := ExpireAll(due, rows);
    assert forall i :: 0 <= i < |once| ==> !IsDue(due, once[i]);
    CountDueZero(due, once);
  }

  /** Exactly the valid rows that are due change, and only their status does. */
  lemma ExpireKeepsAccepted(oidOk: OidFn, due: CString -> bool, db: Db)
    requires IsIndexed(db) && Accepted(oidOk, db.unique, db.rows)
    ensures var d := db.(rows := ExpireAll(due, db.rows));
            && IsIndexed(d) && Accepted(oidOk, d.unique, d.rows) && Grows(db.rows, d.rows)
            && (forall i :: 0 <= i < |db.rows| ==>
                  if IsDue(due, db.rows[i]) then d.rows[i] == db.rows[i].(typ := [TYPE_EXP]) != db.rows[i]
                  else d.rows[i] == db.rows[i])
            && (CountDue(due, db.rows) == 0 <==> d == db)
  {
    var rows := ExpireAll(due, db.rows);
    CountDueZero(due, db.rows);
    forall i | 0 <= i < |rows|
      ensures RowOk(oidOk, rows[i]) && Key(rows[i]) == Key(db.rows[i]) && rows[i].name == db.rows[i].name
      ensures Type(rows[i]) == TYPE_VAL ==> Type(db.rows[i]) == TYPE_VAL
      ensures Evolves(db.rows[i], rows[i]) && (rows[i] == db.rows[i] <==> !IsDue(due, db.rows[i]))
    {
      assert RowOk(oidOk, db.rows[i]);
    }
    if CountDue(due, db.rows) == 0 { assert rows == db.rows; }
  }

  // ---------- revocation: `do_revoke` ----------

  /** What the functions see of a certificate: serial, subject line and expiry text. */
  datatype Cert = Cert(serial: int, name: CString, exp: CString)

  const VALID_TYPE: CString := [TYPE_VAL]
  const UNKNOWN_FILE: CString := Ascii("unknown")

  /** An empty subject is replaced by the serial. */
  function RowName(c: Cert): CString { if c.name == [] then SerialText(c.serial) else c.name }

  /** The row that is made for a certificate. */
  function NewRow(c: Cert): Row {
    Row(VALID_TYPE, c.exp, [], SerialText(c.serial), UNKNOWN_FILE, RowName(c))
  }

  /** `rrow[DB_type][0] = 'R'; rrow[DB_type][1] = '\0';`. If the type was empty, its second
      character is the first one of the expiry date behind it. */
  function MarkRevoked(r: Row, rev: CString): Row {
    if r.typ == [] then r.(typ := [TYPE_REV], exp := [], rev := rev) else r.(typ := [TYPE_REV], rev := rev)
  }

  /** Whether revoking succeeds, and the database in memory afterwards. An unknown serial is
      inserted first, and then found. */
  function Revoke(oidOk: OidFn, now: CString, db: Db, c: Cert, revType: RevType, arg: CString): (r: (bool, Db))
    decreases if FindSerial(db.rows, SerialText(c.serial)).None? then 1 else 0
  {
    var k := FindSerial(db.rows, SerialText(c.serial));
    if k.None? then
      var d := Insert(db, NewRow(c));
      if d.None? then (false, db)
      else if revType == RevValid then (true, d.value)
      else
        assert Key(d.value.rows[|db.rows|]) == StripZeros(SerialText(c.serial));
        Revoke(oidOk, now, d.value, c, revType, arg)
    else if db.rows[k.value].name != RowName(c) then (false, db)
    else if revType == RevValid then (false, db)
    else if IsRevoked(db.rows[k.value]) then (false, db)
    else
      var rev := RevocationText(oidOk, revType, arg, now);
      if rev.None? then (false, db)
      else (true, db.(rows := db.rows[k.value := MarkRevoked(db.rows[k.value], rev.value)]))
  }

  /** What a successful revocation has done: a row for the certificate is there, it is new or
      was not revoked before, and it is revoked now unless it was only to be inserted. */
  lemma RevokeResult(oidOk: OidFn, now: CString, db: Db, c: Cert, revType: RevType, arg: CString)
    requires IsIndexed(db) && SerialsUnique(db.rows) && Revoke(oidOk, now, db, c, revType, arg).0
    ensures var d := Revoke(oidOk, now, db, c, revType, arg).1;
            var k := FindSerial(db.rows, SerialText(c.serial));
            var at := if k.Some? then k.value else |db.rows|;
            var before := if k.Some? then db.rows[k.value] else NewRow(c);
            && d.unique == db.unique && |d.rows| == (if k.Some? then |db.rows| else |db.rows| + 1)
            && (forall i :: 0 <= i < |db.rows| && i != at ==> d.rows[i] == db.rows[i])
            && before.name == RowName(c) && !IsRevoked(before)
            && (k.None? ==> Insert(db, NewRow(c)).Some?)
            && (if revType == RevValid then k.None? && d.rows[at] == before
                else
                  var rev := RevocationText(oidOk, revType, arg, now);
                  rev.Some? && d.rows[at] == MarkRevoked(before, rev.value))
            && d == (if revType == RevValid then Insert(db, NewRow(c)).value
                     else
                       var e := if k.Some? then db else Insert(db, NewRow(c)).value;
                       e.(rows := e.rows[at := d.rows[at]]))
  {
    if FindSerial(db.rows, SerialText(c.serial)).None? {
      var e := Insert(db, NewRow(c)).value;
      assert Key(e.rows[|db.rows|]) == StripZeros(SerialText(c.serial));
      assert FindSerial(e.rows, SerialText(c.serial)) == Some(|db.rows|);
    }
  }

  /** A revocation that fails has changed nothing, or has left behind the row that it inserted
      before its arguments turned out to be bad. */
  lemma FailedRevoke(oidOk: OidFn, now: CString, db: Db, c: Cert, revType: RevType, arg: CString)
    requires !Revoke(oidOk, now, db, c, revType, arg).0
    ensures var d := Revoke(oidOk, now, db, c, revType, arg).1;
            || d == db
            || (FindSerial(db.rows, SerialText(c.serial)).None? && Insert(db, NewRow(c)) == Some(d)
                && RevocationText(oidOk, revType, arg, now).None?)
  {
    if FindSerial(db.rows, SerialText(c.serial)).None? && Insert(db, NewRow(c)).Some? {
      var e := Insert(db, NewRow(c)).value;
      assert Key(e.rows[|db.rows|]) == StripZeros(SerialText(c.serial));
      assert FindSerial(e.rows, SerialText(c.serial)) == Some(|db.rows|);
    }
  }

  /** A revocation leaves a database that will be accepted again, exactly if its time has the
      two-digit form, an inserted certificate has a well-formed expiry date, and the revoked
      row did have a status. */
  predicate RevokeIsSound(db: Db, c: Cert, revType: RevType, now: Tm) {
    var k := FindSerial(db.rows, SerialText(c.serial));
    && (revType != RevValid ==> HasUtcForm(now))
    && (if k.Some? then db.rows[k.value].typ != [] else TimeOk(c.exp))
  }

  lemma MarkedRowOk(oidOk: OidFn, now: Tm, r: Row, revType: RevType, arg: CString)
    requires IsTime(now) && RevocationText(oidOk, revType, arg, TimeText(now)).Some?
    ensures var s := MarkRevoked(r, RevocationText(oidOk, revType, arg, TimeText(now)).value);
            && (RowOk(oidOk, s) <==> HasUtcForm(now) && r.typ != [] && TimeOk(r.exp) && SerialOk(r.serial))
            && (!IsRevoked(r) ==> Evolves(r, s))
  {
    PrintedRevocationReadsBack(oidOk, revType, arg, now);
    assert !TimeOk([]);
  }

  lemma NewRowOk(oidOk: OidFn, c: Cert)
    ensures RowOk(oidOk, NewRow(c)) <==> TimeOk(c.exp)
    ensures SerialOk(NewRow(c).serial) && Type(NewRow(c)) == TYPE_VAL
  {
  }

  lemma InsertGrows(db: Db, c: Cert)
    requires IsIndexed(db) && SerialsUnique(db.rows) && (db.unique ==> NamesUnique(db.rows))
        && Insert(db, NewRow(c)).Some?
    ensures var d := Insert(db, NewRow(c)).value;
            IsIndexed(d) && SerialsUnique(d.rows) && (d.unique ==> NamesUnique(d.rows)) && Grows(db.rows, d.rows)
  {
    InsertKeepsUnique(db, NewRow(c));
    TextIsCanonical(c.serial);
  }

  /** Whatever the arguments, indices stay right and rows only evolve. */
  lemma RevokeKeepsUnique(oidOk: OidFn, now: Tm, db: Db, c: Cert, revType: RevType, arg: CString)
    requires IsTime(now) && IsIndexed(db) && SerialsUnique(db.rows) && (db.unique ==> NamesUnique(db.rows))
    requires Revoke(oidOk, TimeText(now), db, c, revType, arg).0
    ensures var d := Revoke(oidOk, TimeText(now), db, c, revType, arg).1;
            IsIndexed(d) && SerialsUnique(d.rows) && (d.unique ==> NamesUnique(d.rows)) && Grows(db.rows, d.rows)
  {
    RevokeResult(oidOk, TimeText(now), db, c, revType, arg);
    var d := Revoke(oidOk, TimeText(now), db, c, revType, arg).1;
    var k := FindSerial(db.rows, SerialText(c.serial));
    var at := if k.Some? then k.value else |db.rows|;
    var e := db;
    if k.None? {
      InsertGrows(db, c);
      e := Insert(db, NewRow(c)).value;
    } else {
      assert Grows(db.rows, db.rows);
    }
    if revType != RevValid {
      MarkedRowOk(oidOk, now, e.rows[at], revType, arg);
      ReplaceKeepsUnique(e, at, d.rows[at]);
      GrowsTransitive(db.rows, e.rows, d.rows);
    }
  }

  /** The row a revocation is about. */
  function Place(db: Db, c: Cert): nat {
    var k := FindSerial(db.rows, SerialText(c.serial));
    if k.Some? then k.value else |db.rows|
  }

  lemma RevokedRowOk(oidOk: OidFn, now: Tm, db: Db, c: Cert, revType: RevType, arg: CString)
    requires IsTime(now) && IsIndexed(db) && RowsOk(oidOk, db.rows) && SerialsUnique(db.rows)
    requires Revoke(oidOk, TimeText(now), db, c, revType, arg).0
    ensures var rows, at := Revoke(oidOk, TimeText(now), db, c, revType, arg).1.rows, Place(db, c);
            && at < |rows| && |rows| == (if at < |db.rows| then |db.rows| else |db.rows| + 1)
            && (RowOk(oidOk, rows[at]) <==> RevokeIsSound(db, c, revType, now))
            && forall i :: 0 <= i < |db.rows| && i != at ==> rows[i] == db.rows[i]
  {
    RevokeResult(oidOk, TimeText(now), db, c, revType, arg);
    var k := FindSerial(db.rows, SerialText(c.serial));
    NewRowOk(oidOk, c);
    if k.Some? { assert RowOk(oidOk, db.rows[k.value]); }
    if revType != RevValid {
      MarkedRowOk(oidOk, now, if k.Some? then db.rows[k.value] else NewRow(c), revType, arg);
    }
  }

  lemma RevokeKeepsAccepted(oidOk: OidFn, now: Tm, db: Db, c: Cert, revType: RevType, arg: CString)
    requires IsTime(now) && IsIndexed(db) && Accepted(oidOk, db.unique, db.rows)
    requires Revoke(oidOk, TimeText(now), db, c, revType, arg).0
    ensures var d := Revoke(oidOk, TimeText(now), db, c, revType, arg).1;
            Accepted(oidOk, d.unique, d.rows) <==> RevokeIsSound(db, c, revType, now)
  {
    RevokeKeepsUnique(oidOk, now, db, c, revType, arg);
    RevokedRowOk(oidOk, now, db, c, revType, arg);
    RevokeResult(oidOk, TimeText(now), db, c, revType, arg);
    var rows := Revoke(oidOk, TimeText(now), db, c, revType, arg).1.rows;
    OneRowDecides(oidOk, db.rows, rows, Place(db, c));
  }

  /** A row that a revocation changes has been found by its number. */
  lemma RevokeMarksFound(oidOk: OidFn, now: CString, db: Db, c: Cert, revType: RevType, arg: CString)
    requires IsIndexed(db) && RowsOk(oidOk, db.rows) && SerialsUnique(db.rows)
    requires Revoke(oidOk, now, db, c, revType, arg).0
    ensures MarksFound(db.rows, Revoke(oidOk, now, db, c, revType, arg).1.rows)
  {
    RevokeResult(oidOk, now, db, c, revType, arg);
    var k := FindSerial(db.rows, SerialText(c.serial));
    if k.Some? { FoundRow(oidOk, db.rows, c.serial, k.value); }
  }

  lemma OneRowDecides(oidOk: OidFn, before: seq<Row>, rows: seq<Row>, at: nat)
    requires RowsOk(oidOk, before) && at < |rows| && |rows| == (if at < |before| then |before| else |before| + 1)
    requires forall i :: 0 <= i < |before| && i != at ==> rows[i] == before[i]
    requires at <= |before|
    ensures RowsOk(oidOk, rows) <==> RowOk(oidOk, rows[at])
  {
  }
}

/** Exactly when `do_revoke` succeeds, and what it leaves behind in every case. */
module Revocation {
  import opened Bytes
  import opened Database
  import opened RevFields
  import opened RevInfo
  import opened SerialHex
  import opened TxtDb

  /** The name that a certificate has in the database. */
  function NameInRow(c: Cert): CString { if c.name == [] then SerialText(c.serial) else c.name }

  /** The row has the serial of the certificate, as the index compares them. */
  predicate HasSerial(r: Row, serial: int) { StripZeros(r.serial) == StripZeros(SerialText(serial)) }

  /** An indexed row has the name of the certificate. */
  predicate NameClashes(db: Db, c: Cert) {
    db.unique && exists i :: i in db.nameIndex && i < |db.rows| && db.rows[i].name == NameInRow(c)
  }

  predicate StartsWith(typ: seq<byte>, c: byte) { typ != [] && typ[0] == c }

  /** A row with the serial is revoked unless it belongs to another name, is revoked already,
      is only to be inserted, or the argument is bad; whatever else its status is. */
  predicate CanRevoke(oidOk: OidFn, r: Row, c: Cert, revType: RevType, arg: CString) {
    r.name == NameInRow(c) && revType != RevValid && !StartsWith(r.typ, 0x52) && TakesArgument(oidOk, revType, arg)
  }

  /** The row as it is revoked: with the status 'R' and the printed revocation. An empty status
      had no room for the new one, which has overwritten the expiry date behind it. */
  predicate IsRevokedForm(r: Row, s: Row, revType: RevType, arg: CString, now: CString) {
    && s.typ == [0x52] && s.serial == r.serial && s.file == r.file && s.name == r.name
    && s.exp == (if r.typ == [] then [] else r.exp) && IsPrinted(revType, arg, now, s.rev)
  }

  /** The certificate's row is there: it is revoked in its place, or nothing happens. */
  lemma RevokesFound(oidOk: OidFn, now: CString, db: Db, c: Cert, revType: RevType, arg: CString, k: nat)
    requires SerialsUnique(db.rows) && k < |db.rows| && HasSerial(db.rows[k], c.serial)
    ensures var (ok, d) := Revoke(oidOk, now, db, c, revType, arg);
            && (ok <==> CanRevoke(oidOk, db.rows[k], c, revType, arg))
            && (if ok then
                  && d == db.(rows := d.rows) && |d.rows| == |db.rows| && d.rows == db.rows[k := d.rows[k]]
                  && IsRevokedForm(db.rows[k], d.rows[k], revType, arg, now)
                else d == db)
  {
    FindSerialUnique(db.rows, SerialText(c.serial), k);
    PrintedExactly(oidOk, revType, arg, now);
  }

  /** The row that is inserted for an unknown certificate. */
  function InsertedRow(c: Cert): Row {
    Row([0x56], c.exp, [], SerialText(c.serial), Ascii("unknown"), NameInRow(c))
  }

  function WithRow(db: Db, r: Row): Db {
    Db(db.rows + [r], db.unique, if db.unique then db.nameIndex + {|db.rows|} else db.nameIndex)
  }

  /** There is no such row: it is inserted unless its name clashes, and then revoked unless
      that was all, or the argument is bad. */
  lemma RevokesUnknown(oidOk: OidFn, now: CString, db: Db, c: Cert, revType: RevType, arg: CString)
    requires forall i :: 0 <= i < |db.rows| ==> !HasSerial(db.rows[i], c.serial)
    ensures var (ok, d) := Revoke(oidOk, now, db, c, revType, arg);
            && (ok <==> !NameClashes(db, c) && TakesArgument(oidOk, revType, arg))
            && (if NameClashes(db, c) then d == db
                else if !ok || revType == RevValid then d == WithRow(db, InsertedRow(c))
                else
                  && |d.rows| == |db.rows| + 1 && d == WithRow(db, d.rows[|db.rows|])
                  && IsRevokedForm(InsertedRow(c), d.rows[|db.rows|], revType, arg, now))
  {
    PrintedExactly(oidOk, revType, arg, now);
    assert FindSerial(db.rows, SerialText(c.serial)).None?;
    assert NewRow(c) == InsertedRow(c);
    if !NameClashes(db, c) {
      var e := Insert(db, NewRow(c)).value;
      assert Key(e.rows[|db.rows|]) == StripZeros(SerialText(c.serial));
      assert FindSerial(e.rows, SerialText(c.serial)) == Some(|db.rows|);
    }
  }

  /** No other row is touched, and none at all if the certificate was only to be inserted. */
  lemma OthersStay(oidOk: OidFn, now: CString, db: Db, c: Cert, revType: RevType, arg: CString, k: nat)
    requires SerialsUnique(db.rows) && k < |db.rows| && (revType == RevValid || !HasSerial(db.rows[k], c.serial))
    ensures var d := Revoke(oidOk, now, db, c, revType, arg).1; k < |d.rows| && d.rows[k] == db.rows[k]
  {
    var f := FindSerial(db.rows, SerialText(c.serial));
    if f.Some? {
      RevokesFound(oidOk, now, db, c, revType, arg, f.value);
    } else {
      RevokesUnknown(oidOk, now, db, c, revType, arg);
    }
  }

  /** An expired row is revoked like a valid one. */
  lemma ExpiredCanBeRevoked(oidOk: OidFn, now: CString, exp: CString)
    ensures var rows := [Row([0x45], exp, [], SerialText(1), Ascii("unknown"), SerialText(1))];
            Revoke(oidOk, now, Indexed(true, rows), Cert(1, [], exp), RevNone, []).0
  {
    var rows := [Row([0x45], exp, [], SerialText(1), Ascii("unknown"), SerialText(1))];
    RevokesFound(oidOk, now, Indexed(true, rows), Cert(1, [], exp), RevNone, [], 0);
  }
}

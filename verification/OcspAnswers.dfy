/** What the OCSP responder answers to every request, read off the database and the list of its
    CAs, and that the answers to several requests are these in their order. */
module OcspAnswers {
  import opened Bytes
  import opened CrlOcsp
  import opened Database
  import opened RevInfo
  import opened SerialHex
  import opened TxtDb

  /** The CA `j` is the first that names itself as the issuer of the request. */
  predicate IsIssuer(r: Responder, id: CertId, j: nat) {
    && j < |r.cas| && r.caId(id.md, r.cas[j]) == id.issuer
    && forall i :: 0 <= i < j ==> r.caId(id.md, r.cas[i]) != id.issuer
  }

  predicate HasIssuer(r: Responder, id: CertId) {
    exists j :: 0 <= j < |r.cas| && r.caId(id.md, r.cas[j]) == id.issuer
  }

  /** The row of a number: its serial has this value, and is written as the program does it. */
  predicate IsRowOf(row: Row, serial: int) { IsCanonical(row.serial) && SerialValue(row.serial) == serial }

  predicate HasType(row: Row, c: byte) { row.typ != [] && row.typ[0] == c }

  predicate HasRow(rows: seq<Row>, serial: int) { exists k :: 0 <= k < |rows| && IsRowOf(rows[k], serial) }

  predicate HasRowOfType(rows: seq<Row>, serial: int, c: byte) {
    exists k :: 0 <= k < |rows| && IsRowOf(rows[k], serial) && HasType(rows[k], c)
  }

  /** The date, the reason and the extension of a revocation field. */
  predicate AreWordsOf(oidOk: OidFn, rev: CString, status: CertStatus, exts: seq<Ext>) {
    var u := Unpack(oidOk, rev);
    && u.Some? && status == Revoked(u.value.reason, u.value.time)
    && exts == (if u.value.invalidity.Some? then [InvalidityExt(u.value.invalidity.value)]
                else if u.value.hold.Some? then [HoldExt(u.value.hold.value)]
                else [])
  }

  /** The name of the answer: that of the request, or under the response digest the name of the
      CA without a serial. */
  predicate IsAnswerName(r: Responder, id: CertId, cid: CertId) {
    if r.respMd.None? || !HasIssuer(r, id) then cid == id
    else
      exists j: nat :: j < |r.cas| && IsIssuer(r, id, j)
        && cid == CertId(r.respMd.value, r.caId(r.respMd.value, r.cas[j]), 0)
  }

  lemma NameIsRight(r: Responder, id: CertId)
    ensures FindIssuer(r, id, 0).Some? <==> HasIssuer(r, id)
    ensures IsAnswerName(r, id, AnswerId(r, id))
  {
    if HasIssuer(r, id) {
      FirstIssuer(r, id, 0);
      assert IsIssuer(r, id, FindIssuer(r, id, 0).value);
    }
  }

  lemma {:induction false} FirstIssuer(r: Responder, id: CertId, from: nat)
    requires from <= |r.cas| && FindIssuer(r, id, from).Some?
    ensures forall i :: from <= i < FindIssuer(r, id, from).value ==> r.caId(id.md, r.cas[i]) != id.issuer
    decreases |r.cas| - from
  {
    if r.caId(id.md, r.cas[from]) != id.issuer { FirstIssuer(r, id, from + 1); }
  }

  lemma RowIsFound(oidOk: OidFn, rows: seq<Row>, serial: int)
    requires RowsOk(oidOk, rows) && SerialsUnique(rows)
    ensures forall k: nat :: k < |rows| ==>
              (FindSerial(rows, SerialText(serial)) == Some(k) <==> IsRowOf(rows[k], serial))
    ensures FindSerial(rows, SerialText(serial)).Some? <==> HasRow(rows, serial)
  {
    forall k: nat | k < |rows|
      ensures FindSerial(rows, SerialText(serial)) == Some(k) <==> IsRowOf(rows[k], serial)
    {
      FoundRow(oidOk, rows, serial, k);
    }
    var f := FindSerial(rows, SerialText(serial));
    if f.Some? { assert IsRowOf(rows[f.value], serial); }
  }

  /** Two rows of one number are the same. */
  lemma OnlyRowOf(oidOk: OidFn, rows: seq<Row>, serial: int, k: nat)
    requires RowsOk(oidOk, rows) && SerialsUnique(rows) && k < |rows| && IsRowOf(rows[k], serial)
    ensures forall c :: HasRowOfType(rows, serial, c) <==> HasType(rows[k], c)
  {
    RowIsFound(oidOk, rows, serial);
    assert FindSerial(rows, SerialText(serial)) == Some(k);
    forall c | HasRowOfType(rows, serial, c)
      ensures HasType(rows[k], c)
    {
      var i :| 0 <= i < |rows| && IsRowOf(rows[i], serial) && HasType(rows[i], c);
      assert FindSerial(rows, SerialText(serial)) == Some(i);
    }
  }

  /** The status of a number, whoever asks. */
  lemma StatusExactly(oidOk: OidFn, rows: seq<Row>, serial: int)
    requires RowsOk(oidOk, rows) && SerialsUnique(rows)
    ensures var a := StatusOf(oidOk, rows, serial);
            && (a == Says(Unknown, []) <==> !HasRow(rows, serial))
            && (a == Says(Good, []) <==> HasRowOfType(rows, serial, 0x56))
            && (a.Says? && a.status.Revoked? <==> HasRowOfType(rows, serial, 0x52))
            && (a.Silent? <==> HasRow(rows, serial) && !HasRowOfType(rows, serial, 0x56)
                               && !HasRowOfType(rows, serial, 0x52))
            && !a.Broken? && (a.Says? && !a.status.Revoked? ==> a.exts == [])
  {
    RowIsFound(oidOk, rows, serial);
    var f := FindSerial(rows, SerialText(serial));
    if f.Some? {
      assert RowOk(oidOk, rows[f.value]);
      OnlyRowOf(oidOk, rows, serial, f.value);
    }
  }

  lemma RevokedWords(oidOk: OidFn, rows: seq<Row>, serial: int, k: nat)
    requires RowsOk(oidOk, rows) && SerialsUnique(rows)
    requires k < |rows| && IsRowOf(rows[k], serial) && HasType(rows[k], 0x52)
    ensures var a := StatusOf(oidOk, rows, serial); a.Says? && AreWordsOf(oidOk, rows[k].rev, a.status, a.exts)
  {
    RowIsFound(oidOk, rows, serial);
    assert RowOk(oidOk, rows[k]);
  }

  lemma {:induction false} AddAllAppend(oidOk: OidFn, rows: seq<Row>, r: Responder, ids: seq<CertId>, id: CertId,
                                        bs: seq<Single>)
    ensures AddAll(oidOk, rows, r, ids + [id], bs)
         == var before := AddAll(oidOk, rows, r, ids, bs);
            if before.None? then None else Add(oidOk, rows, r, id, before.value)
    decreases |ids|
  {
    if ids == [] {
      assert ids + [id] == [id] && [id][1..] == [];
    } else {
      assert (ids + [id])[1..] == ids[1..] + [id];
      var one := Add(oidOk, rows, r, ids[0], bs);
      if one.Some? { AddAllAppend(oidOk, rows, r, ids[1..], id, one.value); }
    }
  }

  lemma OneRequest(oidOk: OidFn, rows: seq<Row>, r: Responder, id: CertId)
    requires r.digestOk(id.md) && !AnswerTo(oidOk, rows, r, id).Broken?
    ensures Respond(oidOk, rows, r, [id]) == Successful(SinglesOf(oidOk, rows, r, id))
  {
    AddAllAppend(oidOk, rows, r, [], id, []);
    assert [] + [id] == [id] && [] + SinglesOf(oidOk, rows, r, id) == SinglesOf(oidOk, rows, r, id);
  }

  /** One request with a known digest, on a checked database: which status is answered when. */
  lemma AnswerExactly(oidOk: OidFn, rows: seq<Row>, r: Responder, id: CertId)
    requires RowsOk(oidOk, rows) && SerialsUnique(rows) && r.digestOk(id.md)
    ensures var resp := Respond(oidOk, rows, r, [id]);
            && resp.Successful? && |resp.singles| <= 1
            && (resp.singles == [] <==>
                  && HasIssuer(r, id) && HasRow(rows, id.serial)
                  && !HasRowOfType(rows, id.serial, 0x56) && !HasRowOfType(rows, id.serial, 0x52))
            && (resp.singles != [] ==>
                  var s := resp.singles[0];
                  && IsAnswerName(r, id, s.cid)
                  && (s.status == Unknown <==> !HasIssuer(r, id) || !HasRow(rows, id.serial))
                  && (s.status == Good <==> HasIssuer(r, id) && HasRowOfType(rows, id.serial, 0x56))
                  && (s.status.Revoked? <==> HasIssuer(r, id) && HasRowOfType(rows, id.serial, 0x52))
                  && (!s.status.Revoked? ==> s.exts == [])
                  && (forall k :: s.status.Revoked? && 0 <= k < |rows| && IsRowOf(rows[k], id.serial) ==>
                        AreWordsOf(oidOk, rows[k].rev, s.status, s.exts)))
  {
    NameIsRight(r, id);
    StatusExactly(oidOk, rows, id.serial);
    OneRequest(oidOk, rows, r, id);
    if HasRowOfType(rows, id.serial, 0x52) {
      forall k | 0 <= k < |rows| && IsRowOf(rows[k], id.serial)
        ensures var a := StatusOf(oidOk, rows, id.serial); a.Says? && AreWordsOf(oidOk, rows[k].rev, a.status, a.exts)
      {
        OnlyRowOf(oidOk, rows, id.serial, k);
        RevokedWords(oidOk, rows, id.serial, k);
      }
    }
  }

  /** Several requests get the answers of each, in order; one that fails makes all fail. No
      request at all is malformed. */
  lemma AnswersInOrder(oidOk: OidFn, rows: seq<Row>, r: Responder, ids: seq<CertId>, id: CertId)
    ensures Respond(oidOk, rows, r, []) == Malformed
    ensures !r.digestOk(id.md) ==> Respond(oidOk, rows, r, [id]) == InternalError
    ensures ids != [] ==>
              var before, one := Respond(oidOk, rows, r, ids), Respond(oidOk, rows, r, [id]);
              Respond(oidOk, rows, r, ids + [id])
              == if before.Successful? && one.Successful? then Successful(before.singles + one.singles)
                 else InternalError
  {
    AddAllAppend(oidOk, rows, r, ids, id, []);
    AddAllAppend(oidOk, rows, r, [], id, []);
    assert [] + [id] == [id];
  }

  /** On a database that was not checked, the answer fails in just one more case: the row found
      is revoked, and its time cannot be read. */
  lemma FailsOnlyOver(oidOk: OidFn, rows: seq<Row>, r: Responder, id: CertId)
    ensures Respond(oidOk, rows, r, [id]) == InternalError <==>
              || !r.digestOk(id.md)
              || (HasIssuer(r, id) &&
                  var f := FindSerial(rows, SerialText(id.serial));
                  f.Some? && HasType(rows[f.value], 0x52) && TimeOf(rows[f.value].rev).None?)
  {
    NameIsRight(r, id);
    AddAllAppend(oidOk, rows, r, [], id, []);
    assert [] + [id] == [id];
  }
}

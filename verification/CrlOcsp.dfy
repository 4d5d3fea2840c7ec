/** The two readers of the database: the revocation list that `ca` makes, and the answers of
    the OCSP responder. */
module CrlOcsp {
  import opened Asn1Time
  import opened Bytes
  import opened CaDatabase
  import opened Database
  import opened RevInfo
  import opened SerialHex
  import opened TxtDb

  datatype Ext = ReasonExt(code: int) | InvalidityExt(time: CString) | HoldExt(oid: CString)

  // ---------- the revocation list ----------

  datatype CrlEntry = CrlEntry(serial: int, date: CString, exts: seq<Ext>)

  function ReasonExts(reason: int): seq<Ext> { if reason == NO_STATUS then [] else [ReasonExt(reason)] }

  function OtherExts(r: Revocation): seq<Ext> {
    if r.invalidity.Some? then [InvalidityExt(r.invalidity.value)]
    else if r.hold.Some? then [HoldExt(r.hold.value)]
    else []
  }

  /** What the list says about a revoked row. */
  function EntryOf(oidOk: OidFn, r: Row): CrlEntry
    requires Unpack(oidOk, r.rev).Some?
  {
    var u := Unpack(oidOk, r.rev).value;
    CrlEntry(SerialValue(r.serial), u.time, ReasonExts(u.reason) + OtherExts(u))
  }

  /** The entry of a row, if it has one. */
  function EntryIf(oidOk: OidFn, r: Row): seq<CrlEntry> {
    if IsRevoked(r) && Unpack(oidOk, r.rev).Some? then [EntryOf(oidOk, r)] else []
  }

  function FlatMap<A, B>(f: A -> seq<B>, s: seq<A>): seq<B> {
    if s == [] then [] else FlatMap(f, s[..|s| - 1]) + f(s[|s| - 1])
  }

  lemma {:induction false} InFlatMap<A, B>(f: A -> seq<B>, s: seq<A>, b: B)
    ensures b in FlatMap(f, s) <==> exists k :: 0 <= k < |s| && b in f(s[k])
  {
    if s != [] {
      var n := |s| - 1;
      InFlatMap(f, s[..n], b);
      if k: nat :| k < n && b in f(s[k]) { assert b in f(s[..n][k]); }
    }
  }

  function Entries(oidOk: OidFn): Row -> seq<CrlEntry> { (r: Row) => EntryIf(oidOk, r) }

  /** The entries of all revoked rows, in order. */
  function CrlOf(oidOk: OidFn, rows: seq<Row>): seq<CrlEntry> { FlatMap(Entries(oidOk), rows) }

  predicate HasExts(es: seq<CrlEntry>) { exists i :: 0 <= i < |es| && es[i].exts != [] }

  /** `make_revoked`: 0 for an error, 2 if a reason was given and the list needs version 2. */
  method MakeRevoked(oidOk: OidFn, str: CString) returns (ret: nat, date: CString, exts: seq<Ext>)
    ensures ret == 0 <==> Unpack(oidOk, str).None?
    ensures ret != 0 ==>
              var u := Unpack(oidOk, str).value;
              && date == u.time && exts == ReasonExts(u.reason) + OtherExts(u)
              && (ret == 2 <==> exts != []) && ret <= 2
  {
    ret, date, exts := 0, [], [];
    var i, _ := UnpackRevinfo(oidOk, str);
    if i.None? {
      return;
    }
    NotBothExtensions(oidOk, str);
    var u := i.value;
    date := u.time;
    if u.reason != NO_STATUS {
      exts := exts + [ReasonExt(u.reason)];
    }
    if u.invalidity.Some? {
      exts := exts + [InvalidityExt(u.invalidity.value)];
    }
    if u.hold.Some? {
      exts := exts + [HoldExt(u.hold.value)];
    }
    ret := if u.reason != NO_STATUS then 2 else 1;
  }

  /** One revoked row is put on the list. */
  method AddRevoked(oidOk: OidFn, pp: DbRow, ghost r: Row, crl: seq<CrlEntry>, v2: bool)
    returns (after: seq<CrlEntry>, crlV2: bool)
    requires pp.Is(r) && RowOk(oidOk, r) && IsRevoked(r) && (v2 <==> HasExts(crl))
    ensures after == crl + [EntryOf(oidOk, r)] && (crlV2 <==> HasExts(after))
  {
    crlV2 := v2;
    var j, date, exts := MakeRevoked(oidOk, pp.rev);
    var e := CrlEntry(SerialValue(pp.serial), date, exts);
    OneMoreEntry(crl, e);
    if j == 2 {
      crlV2 := true;
    }
    after := crl + [e];
  }

  lemma OneMoreRow(oidOk: OidFn, rows: seq<Row>, n: nat)
    requires n < |rows|
    ensures CrlOf(oidOk, rows[..n + 1]) == CrlOf(oidOk, rows[..n]) + EntryIf(oidOk, rows[n])
  {
    assert rows[..n + 1][..n] == rows[..n];
  }

  /** One round of the loop over the rows. */
  method AddRow(oidOk: OidFn, pp: DbRow, ghost r: Row, crl: seq<CrlEntry>, v2: bool)
    returns (after: seq<CrlEntry>, crlV2: bool)
    requires pp.Is(r) && RowOk(oidOk, r) && (v2 <==> HasExts(crl))
    ensures after == crl + EntryIf(oidOk, r) && (crlV2 <==> HasExts(after))
  {
    if pp.typ != [] && pp.typ[0] == TYPE_REV {
      after, crlV2 := AddRevoked(oidOk, pp, r, crl, v2);
    } else {
      after, crlV2 := crl, v2;
    }
  }

  /** The loop of `ca_main` over the rows. On a checked database it does not fail. */
  method MakeCrl(oidOk: OidFn, db: CaDb) returns (crl: seq<CrlEntry>, crlV2: bool)
    requires db.Valid() && RowsOk(oidOk, db.rows)
    ensures crl == CrlOf(oidOk, db.rows) && (crlV2 <==> HasExts(crl))
  {
    crl, crlV2 := [], false;
    for i := 0 to |db.data|
      invariant crl == CrlOf(oidOk, db.rows[..i]) && (crlV2 <==> HasExts(crl))
    {
      var pp := db.data[i];
      assert pp.Is(db.rows[i]) && RowOk(oidOk, db.rows[i]);
      OneMoreRow(oidOk, db.rows, i);
      crl, crlV2 := AddRow(oidOk, pp, db.rows[i], crl, crlV2);
    }
    assert db.rows[..|db.data|] == db.rows;
  }

  lemma OneMoreEntry(crl: seq<CrlEntry>, e: CrlEntry)
    ensures HasExts(crl + [e]) <==> HasExts(crl) || e.exts != []
  {
    if HasExts(crl) {
      var i :| 0 <= i < |crl| && crl[i].exts != [];
      assert (crl + [e])[i].exts != [];
    }
    if e.exts != [] { assert (crl + [e])[|crl|].exts != []; }
  }

  /** The list holds the entries of the revoked rows, and no others. */
  lemma ListedRows(oidOk: OidFn, rows: seq<Row>, e: CrlEntry)
    ensures e in CrlOf(oidOk, rows) <==> exists k :: 0 <= k < |rows| && e in EntryIf(oidOk, rows[k])
  {
    InFlatMap(Entries(oidOk), rows, e);
    assert forall r: Row :: Entries(oidOk)(r) == EntryIf(oidOk, r);
  }

  // ---------- the responder ----------

  /** A certificate as it is named in requests: digest, issuer under that digest, serial. */
  datatype CertId = CertId(md: nat, issuer: seq<byte>, serial: int)

  datatype CertStatus = Good | Revoked(reason: int, time: CString) | Unknown

  datatype Single = Single(cid: CertId, status: CertStatus, exts: seq<Ext>)

  datatype Response = Malformed | InternalError | Successful(singles: seq<Single>)

  /** The CA certificates of the responder, how a CA is named under a digest, which digests are
      known, and the digest for the answers, if one was asked for. */
  datatype Responder = Responder(cas: seq<nat>, caId: (nat, nat) -> seq<byte>, digestOk: nat -> bool,
      respMd: Option<nat>)

  /** The first CA that has issued certificates under this name. */
  function FindIssuer(r: Responder, id: CertId, from: nat): (at: Option<nat>)
    requires from <= |r.cas|
    ensures at.Some? ==> from <= at.value < |r.cas| && r.caId(id.md, r.cas[at.value]) == id.issuer
    ensures at.None? ==> forall j :: from <= j < |r.cas| ==> r.caId(id.md, r.cas[j]) != id.issuer
    decreases |r.cas| - from
  {
    if from == |r.cas| then None
    else if r.caId(id.md, r.cas[from]) == id.issuer then Some(from)
    else FindIssuer(r, id, from + 1)
  }

  /** The name an answer goes by. The one that is made for the response digest is made from
      the CA alone, and has no serial: it stays at zero. */
  function AnswerId(r: Responder, id: CertId): CertId {
    var at := FindIssuer(r, id, 0);
    if at.None? || r.respMd.None? then id else CertId(r.respMd.value, r.caId(r.respMd.value, r.cas[at.value]), 0)
  }

  /** What the responder does about a serial of its own CA: it may have nothing to say, or
      give up because the time of a revocation cannot be read. */
  datatype Answer = Silent | Broken | Says(status: CertStatus, exts: seq<Ext>)

  /** Of a field that can only be read in part, the time is used. */
  function RevokedAnswer(oidOk: OidFn, rev: CString): Answer {
    var u := Unpack(oidOk, rev);
    if TimeOf(rev).None? then Broken
    else if u.None? then Says(Revoked(NO_STATUS, TimeOf(rev).value), [])
    else Says(Revoked(u.value.reason, u.value.time), OtherExts(u.value))
  }

  /** Nothing is said about a row that is neither valid nor revoked. */
  function StatusOf(oidOk: OidFn, rows: seq<Row>, serial: int): Answer {
    var k := FindSerial(rows, SerialText(serial));
    if k.None? then Says(Unknown, [])
    else if Type(rows[k.value]) == TYPE_VAL then Says(Good, [])
    else if IsRevoked(rows[k.value]) then RevokedAnswer(oidOk, rows[k.value].rev)
    else Silent
  }

  function AnswerTo(oidOk: OidFn, rows: seq<Row>, r: Responder, id: CertId): Answer {
    if FindIssuer(r, id, 0).None? then Says(Unknown, []) else StatusOf(oidOk, rows, id.serial)
  }

  /** The single responses for one request. */
  function SinglesOf(oidOk: OidFn, rows: seq<Row>, r: Responder, id: CertId): (s: seq<Single>)
    ensures |s| <= 1
  {
    var a := AnswerTo(oidOk, rows, r, id);
    if a.Says? then [Single(AnswerId(r, id), a.status, a.exts)] else []
  }

  /** A request that no answer can be given to. */
  predicate Defeats(oidOk: OidFn, rows: seq<Row>, r: Responder, id: CertId) {
    !r.digestOk(id.md) || AnswerTo(oidOk, rows, r, id).Broken?
  }

  /** The responses to one more request. */
  function Add(oidOk: OidFn, rows: seq<Row>, r: Responder, id: CertId, bs: seq<Single>): Option<seq<Single>> {
    if Defeats(oidOk, rows, r, id) then None else Some(bs + SinglesOf(oidOk, rows, r, id))
  }

  function AddAll(oidOk: OidFn, rows: seq<Row>, r: Responder, ids: seq<CertId>, bs: seq<Single>): Option<seq<Single>>
    decreases |ids|
  {
    if ids == [] then Some(bs)
    else
      var one := Add(oidOk, rows, r, ids[0], bs);
      if one.None? then None else AddAll(oidOk, rows, r, ids[1..], one.value)
  }

  function Respond(oidOk: OidFn, rows: seq<Row>, r: Responder, ids: seq<CertId>): Response {
    if ids == [] then Malformed
    else
      var all := AddAll(oidOk, rows, r, ids, []);
      if all.None? then InternalError else Successful(all.value)
  }

  /** The whole response fails exactly if one of the requests defeats it; otherwise it has no
      more answers than requests. */
  lemma {:induction false} RespondsUnlessDefeated(oidOk: OidFn, rows: seq<Row>, r: Responder,
                                                  ids: seq<CertId>, bs: seq<Single>)
    ensures var all := AddAll(oidOk, rows, r, ids, bs);
            && (all.None? <==> exists i :: 0 <= i < |ids| && Defeats(oidOk, rows, r, ids[i]))
            && (all.Some? ==> bs <= all.value && |all.value| <= |bs| + |ids|)
    decreases |ids|
  {
    if ids != [] {
      var one := Add(oidOk, rows, r, ids[0], bs);
      if one.Some? { RespondsUnlessDefeated(oidOk, rows, r, ids[1..], one.value); }
      assert forall i :: 0 < i < |ids| ==> ids[i] == ids[1..][i - 1];
    }
  }

  /** `lookup_serial` */
  method LookupSerial(db: CaDb, ser: int) returns (k: Option<nat>)
    requires db.Valid()
    ensures k == FindSerial(db.rows, SerialText(ser))
  {
    var itmp := if ser == 0 then [ZERO, ZERO] else Bn2Hex(ser);
    k := db.GetBySerial(itmp);
  }

  /** The loop over the CA certificates. */
  method LookupIssuer(r: Responder, id: CertId) returns (found: bool, cidRespMd: Option<CertId>)
    ensures found <==> FindIssuer(r, id, 0).Some?
    ensures AnswerId(r, id) == if cidRespMd.Some? then cidRespMd.value else id
  {
    found, cidRespMd := false, None;
    var jj := 0;
    while jj < |r.cas| && !found
      invariant jj <= |r.cas|
      invariant !found ==> FindIssuer(r, id, 0) == FindIssuer(r, id, jj) && cidRespMd == None
      invariant found ==> FindIssuer(r, id, 0).Some?
      invariant found ==> AnswerId(r, id) == if cidRespMd.Some? then cidRespMd.value else id
    {
      if r.caId(id.md, r.cas[jj]) == id.issuer {
        found := true;
        if r.respMd.Some? {
          cidRespMd := Some(CertId(r.respMd.value, r.caId(r.respMd.value, r.cas[jj]), 0));
        }
      }
      jj := jj + 1;
    }
  }

  /** The answer from a revoked row. */
  method RevokedStatus(oidOk: OidFn, rev: CString) returns (a: Answer)
    ensures a == RevokedAnswer(oidOk, rev)
  {
    var u, revtm := UnpackRevinfo(oidOk, rev);
    if revtm.None? {
      return Broken;
    }
    var reason := if u.Some? then u.value.reason else NO_STATUS;
    var exts: seq<Ext> := [];
    if u.Some? && u.value.invalidity.Some? {
      exts := [InvalidityExt(u.value.invalidity.value)];
    } else if u.Some? && u.value.hold.Some? {
      exts := [HoldExt(u.value.hold.value)];
    }
    a := Says(Revoked(reason, revtm.value), exts);
  }

  /** The answer to one request, as it is added to the response. */
  method AddStatus(oidOk: OidFn, db: CaDb, r: Responder, id: CertId, bs: seq<Single>)
    returns (ok: bool, after: seq<Single>)
    requires db.Valid()
    ensures ok <==> !AnswerTo(oidOk, db.rows, r, id).Broken?
    ensures ok ==> after == bs + SinglesOf(oidOk, db.rows, r, id)
  {
    ok := true;
    var found, cidRespMd := LookupIssuer(r, id);
    var inf := LookupSerial(db, id.serial);
    var cid := if cidRespMd.Some? then cidRespMd.value else id;
    if !found {
      return true, bs + [Single(cid, Unknown, [])];
    }
    if inf.None? {
      return true, bs + [Single(cid, Unknown, [])];
    }
    var row := db.data[inf.value];
    assert row.Is(db.rows[inf.value]);
    after := bs;
    if row.typ != [] && row.typ[0] == TYPE_VAL {
      after := bs + [Single(cid, Good, [])];
    } else if row.typ != [] && row.typ[0] == TYPE_REV {
      var a := RevokedStatus(oidOk, row.rev);
      if a.Broken? {
        return false, bs;
      }
      after := bs + [Single(cid, a.status, a.exts)];
    }
  }

  /** One round of the loop over the requests. */
  method AnswerOne(oidOk: OidFn, db: CaDb, r: Responder, id: CertId, bs: seq<Single>)
    returns (after: Option<seq<Single>>)
    requires db.Valid()
    ensures after == Add(oidOk, db.rows, r, id, bs)
  {
    if !r.digestOk(id.md) {
      return None;
    }
    var ok, more := AddStatus(oidOk, db, r, id, bs);
    after := if ok then Some(more) else None;
  }

  /** `make_ocsp_response`, up to the signature; on any database, checked or not. */
  method MakeOcspResponse(oidOk: OidFn, db: CaDb, r: Responder, ids: seq<CertId>) returns (resp: Response)
    requires db.Valid()
    ensures resp == Respond(oidOk, db.rows, r, ids)
  {
    if |ids| <= 0 {
      return Malformed;
    }
    var bs: seq<Single> := [];
    assert ids[0..] == ids;
    for i := 0 to |ids|
      invariant AddAll(oidOk, db.rows, r, ids, []) == AddAll(oidOk, db.rows, r, ids[i..], bs)
    {
      assert ids[i..][0] == ids[i] && ids[i..][1..] == ids[i + 1..];
      var after := AnswerOne(oidOk, db, r, ids[i], bs);
      if after.None? {
        return InternalError;
      }
      bs := after.value;
    }
    resp := Successful(bs);
  }

  // ---------- agreement ----------

  /** On a checked database the responder never gives up over a row. */
  lemma CheckedIsNotBroken(oidOk: OidFn, rows: seq<Row>, serial: int)
    requires RowsOk(oidOk, rows)
    ensures !StatusOf(oidOk, rows, serial).Broken?
  {
    var k := FindSerial(rows, SerialText(serial));
    if k.Some? { assert RowOk(oidOk, rows[k.value]); }
  }

  /** What the responder says, as the list would put it. */
  function AsEntry(serial: int, a: Answer): CrlEntry
    requires a.Says? && a.status.Revoked?
  {
    CrlEntry(serial, a.status.time, ReasonExts(a.status.reason) + a.exts)
  }

  /** The responder calls the serial of the entry revoked, in the words of the entry. */
  predicate Confirms(oidOk: OidFn, rows: seq<Row>, e: CrlEntry) {
    var a := StatusOf(oidOk, rows, e.serial);
    a.Says? && a.status.Revoked? && AsEntry(e.serial, a) == e
  }

  /** Revoked rows that were found by their number have spoken for it. */
  lemma ConfirmedIffCanonical(oidOk: OidFn, rows: seq<Row>, e: CrlEntry)
    requires RowsOk(oidOk, rows) && SerialsUnique(rows)
    ensures Confirms(oidOk, rows, e) <==>
              exists k :: 0 <= k < |rows| && IsCanonical(rows[k].serial) && e in EntryIf(oidOk, rows[k])
  {
    var k := FindSerial(rows, SerialText(e.serial));
    forall i | 0 <= i < |rows|
      ensures k == Some(i) <==> SerialValue(rows[i].serial) == e.serial && IsCanonical(rows[i].serial)
      ensures e in EntryIf(oidOk, rows[i]) ==> SerialValue(rows[i].serial) == e.serial
    {
      FoundRow(oidOk, rows, e.serial, i);
    }
    if k.Some? {
      assert RowOk(oidOk, rows[k.value]);
      assert Confirms(oidOk, rows, e) <==> e in EntryIf(oidOk, rows[k.value]);
    }
  }

  /** A serial that the responder calls revoked is on the list, with the same words. */
  lemma ConfirmedIsListed(oidOk: OidFn, rows: seq<Row>, e: CrlEntry)
    requires RowsOk(oidOk, rows) && SerialsUnique(rows) && Confirms(oidOk, rows, e)
    ensures e in CrlOf(oidOk, rows)
  {
    ConfirmedIffCanonical(oidOk, rows, e);
    ListedRows(oidOk, rows, e);
  }

  /** A revoked row is canonical, or a canonical row has the same entry. */
  predicate IsSpokenFor(oidOk: OidFn, rows: seq<Row>, k: nat)
    requires k < |rows|
  {
    || IsCanonical(rows[k].serial)
    || exists j :: 0 <= j < |rows| && IsCanonical(rows[j].serial) && EntryIf(oidOk, rows[j]) == EntryIf(oidOk, rows[k])
  }

  predicate AllSpokenFor(oidOk: OidFn, rows: seq<Row>) {
    forall k: nat :: k < |rows| && IsRevoked(rows[k]) ==> IsSpokenFor(oidOk, rows, k)
  }

  /** The list and the responder say the same about an entry. */
  predicate Agree(oidOk: OidFn, rows: seq<Row>, e: CrlEntry) {
    e in CrlOf(oidOk, rows) <==> Confirms(oidOk, rows, e)
  }

  lemma SpokenForAgrees(oidOk: OidFn, rows: seq<Row>, e: CrlEntry)
    requires RowsOk(oidOk, rows) && SerialsUnique(rows) && AllSpokenFor(oidOk, rows)
    ensures Agree(oidOk, rows, e)
  {
    ConfirmedIffCanonical(oidOk, rows, e);
    ListedRows(oidOk, rows, e);
    if k: nat :| k < |rows| && e in EntryIf(oidOk, rows[k]) {
      assert IsSpokenFor(oidOk, rows, k);
    }
  }

  lemma RevokedEntry(oidOk: OidFn, rows: seq<Row>, k: nat) returns (e: CrlEntry)
    requires RowsOk(oidOk, rows) && k < |rows| && IsRevoked(rows[k])
    ensures e in EntryIf(oidOk, rows[k])
  {
    assert RowOk(oidOk, rows[k]);
    e := EntryOf(oidOk, rows[k]);
  }

  lemma OnlyEntry(oidOk: OidFn, r: Row, e: CrlEntry)
    requires e in EntryIf(oidOk, r)
    ensures EntryIf(oidOk, r) == [e]
  {
  }

  lemma AgreeingRow(oidOk: OidFn, rows: seq<Row>, k: nat, e: CrlEntry)
    requires RowsOk(oidOk, rows) && SerialsUnique(rows) && k < |rows| && e in EntryIf(oidOk, rows[k])
    requires Agree(oidOk, rows, e)
    ensures IsSpokenFor(oidOk, rows, k)
  {
    ListedRows(oidOk, rows, e);
    ConfirmedIffCanonical(oidOk, rows, e);
    var j :| 0 <= j < |rows| && IsCanonical(rows[j].serial) && e in EntryIf(oidOk, rows[j]);
    OnlyEntry(oidOk, rows[j], e);
    OnlyEntry(oidOk, rows[k], e);
  }

  /** The exact condition: on a checked database the list and the responder agree about
      everything if and only if every revoked row is canonical, or a canonical row has the
      same entry. */
  lemma ReadersAgree(oidOk: OidFn, rows: seq<Row>)
    requires RowsOk(oidOk, rows) && SerialsUnique(rows)
    ensures (forall e :: Agree(oidOk, rows, e)) <==> AllSpokenFor(oidOk, rows)
  {
    if AllSpokenFor(oidOk, rows) {
      forall e
        ensures Agree(oidOk, rows, e)
      {
        SpokenForAgrees(oidOk, rows, e);
      }
    }
    if forall e :: Agree(oidOk, rows, e) {
      forall k: nat | k < |rows| && IsRevoked(rows[k])
        ensures IsSpokenFor(oidOk, rows, k)
      {
        var e := RevokedEntry(oidOk, rows, k);
        assert Agree(oidOk, rows, e);
        AgreeingRow(oidOk, rows, k, e);
      }
    }
  }

  /** The program itself never breaks the agreement: what it marks, it has found. */
  lemma SpokenForStays(oidOk: OidFn, a: seq<Row>, b: seq<Row>)
    requires RowsOk(oidOk, a) && AllSpokenFor(oidOk, a) && Grows(a, b) && MarksFound(a, b)
    ensures AllSpokenFor(oidOk, b)
  {
    forall k: nat | k < |b| && IsRevoked(b[k])
      ensures IsSpokenFor(oidOk, b, k)
    {
      if k < |a| && IsRevoked(a[k]) && !IsCanonical(b[k].serial) {
        assert Evolves(a[k], b[k]) && RowOk(oidOk, a[k]) && IsSpokenFor(oidOk, a, k);
        var j :| 0 <= j < |a| && IsCanonical(a[j].serial) && EntryIf(oidOk, a[j]) == EntryIf(oidOk, a[k]);
        assert Evolves(a[j], b[j]);
        assert b[j] == a[j];
      }
    }
  }

  /** Files in which a revoked row is not spoken for are accepted: here its serial is written
      in small letters. The row is listed, and the responder does not know the number. */
  lemma LowerCaseDisagrees(oidOk: OidFn, now: Tm)
    requires IsTime(now) && HasUtcForm(now)
    ensures var rows := [Row([TYPE_REV], TimeText(now), TimeText(now), [0x61, 0x62], [], [])];
            Accepted(oidOk, true, rows) && HaveStatus(rows) && !AllSpokenFor(oidOk, rows)
  {
    var r := Row([TYPE_REV], TimeText(now), TimeText(now), [0x61, 0x62], [], []);
    TimeTextIsTime(now);
    assert Unpack(oidOk, r.rev).Some? by {
      PrintedRevocationReadsBack(oidOk, RevNone, [], now);
      assert TimeText(now) + [] == TimeText(now);
    }
    SmallLettersPass(r.serial);
    assert RowOk(oidOk, r);
    assert !IsSpokenFor(oidOk, [r], 0);
  }

  lemma SmallLettersPass(s: seq<byte>)
    requires s == [0x61, 0x62]
    ensures SerialOk(s) && !IsCanonical(s)
  {
    assert s[0] == 0x61 && Magnitude(s) == s;
  }

  /** There is one answer, except for a row that is neither valid nor revoked, or revoked at a
      time that cannot be read. */
  lemma OneAnswerUnlessExpired(oidOk: OidFn, rows: seq<Row>, r: Responder, id: CertId)
    ensures var k := FindSerial(rows, SerialText(id.serial));
            |SinglesOf(oidOk, rows, r, id)| == 0 <==>
              && (exists j :: 0 <= j < |r.cas| && r.caId(id.md, r.cas[j]) == id.issuer)
              && k.Some? && Type(rows[k.value]) != TYPE_VAL
              && (IsRevoked(rows[k.value]) ==> TimeOf(rows[k.value].rev).None?)
  {
  }

  /** It happens in a database that passes the load check: the row of an expired certificate
      gets no answer from a responder that knows its issuer. */
  lemma ExpiredGetsNoAnswer(oidOk: OidFn, now: Tm, r: Responder, id: CertId)
    requires IsTime(now) && id.serial == 1
    requires exists j :: 0 <= j < |r.cas| && r.caId(id.md, r.cas[j]) == id.issuer
    ensures var rows := [Row([TYPE_EXP], TimeText(now), [], SerialText(1), [], [])];
            Accepted(oidOk, true, rows) && SinglesOf(oidOk, rows, r, id) == []
  {
    var row := Row([TYPE_EXP], TimeText(now), [], SerialText(1), [], []);
    TimeTextIsTime(now);
    SerialTextDenotes(1);
    FindSerialUnique([row], SerialText(1), 0);
    OneAnswerUnlessExpired(oidOk, [row], r, id);
  }

  /** An answer names the certificate that was asked for exactly if its issuer is not known,
      or no response digest was set, or it was the digest of the request and the serial is
      zero: the other names have lost the serial. */
  lemma AnswersNameTheirRequest(oidOk: OidFn, rows: seq<Row>, r: Responder, id: CertId)
    requires |SinglesOf(oidOk, rows, r, id)| == 1
    ensures SinglesOf(oidOk, rows, r, id)[0].cid == id <==>
              || FindIssuer(r, id, 0).None? || r.respMd.None?
              || (r.respMd.value == id.md && id.serial == 0)
  {
  }
}

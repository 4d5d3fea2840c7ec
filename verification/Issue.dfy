/** Issuing certificates: `do_body` for one request, and the loop over all requests. */
module Issue {
  import opened Asn1Time
  import opened Bytes
  import opened CaDatabase
  import opened Database
  import opened NameCheck
  import opened Names
  import opened Policy
  import opened RevInfo
  import opened SerialHex
  import opened TxtDb

  datatype Config = Config(txt2nid: Txt2Nid, policy: seq<ConfValue>, caName: seq<Entry>, selfsign: bool,
                           preserve: bool, emailDn: bool, msieHack: bool, oneline: seq<Entry> -> CString)

  datatype Checked = Unreadable | BadSignature | Verified

  /** A request, with what foreign code and the operator make of it: `buildable` covers the
      validity times, the key and the extensions. */
  datatype Request = Request(checked: Checked, name: seq<Entry>, buildable: bool, notAfter: CString,
                             confirmed: bool, signable: bool)

  // ---------- one request ----------

  /** The name of the request, with the corrections of `-msie_hack`. */
  function NameOf(cfg: Config, req: Request): seq<Entry> { AdjustedName(cfg.msieHack, req.name) }

  predicate Permitted(cfg: Config, req: Request) {
    && NamePasses(cfg.emailDn, NameOf(cfg, req))
    && PolicyMet(cfg.txt2nid, cfg.policy, NameOf(cfg, req), if cfg.selfsign then NameOf(cfg, req) else cfg.caName)
  }

  /** The subject that goes into the certificate. */
  function CertName(cfg: Config, req: Request): seq<Entry> {
    var subject := if cfg.preserve then NameOf(cfg, req) else Subject(cfg.txt2nid, cfg.policy, NameOf(cfg, req));
    if cfg.emailDn then subject else Without(subject, EMAIL_ADDRESS)
  }

  function CertOf(cfg: Config, req: Request, serial: int): Cert {
    Cert(serial, cfg.oneline(CertName(cfg, req)), req.notAfter)
  }

  /** A row with this name or this serial is there. The name index may still hold rows that
      have expired since they were loaded. */
  predicate Clashes(db: Db, c: Cert) {
    (db.unique && HasName(db, RowName(c))) || FindSerial(db.rows, SerialText(c.serial)).Some?
  }

  /** What becomes of a request: issued (1), declined (0), or the end of the whole run (-1). */
  function Outcome(cfg: Config, req: Request, serial: int, db: Db): int {
    if req.checked.Unreadable? then -1
    else if req.checked.BadSignature? then 0
    else if !Permitted(cfg, req) || !req.buildable || Clashes(db, CertOf(cfg, req, serial)) then -1
    else if !req.confirmed then 0
    else if !req.signable then -1
    else 1
  }

  /** Behind the clash checks the row can always be inserted. */
  lemma InsertSucceeds(db: Db, c: Cert)
    requires !Clashes(db, c)
    ensures Insert(db, NewRow(c)).Some?
    ensures Insert(db, NewRow(c)).value.rows == db.rows + [NewRow(c)]
  {
  }

  method BuildSubject(cfg: Config, req: Request) returns (s: Option<seq<Entry>>)
    ensures s == if Permitted(cfg, req) && req.buildable then Some(CertName(cfg, req)) else None
  {
    var name := new X509Name(req.name);
    var ok := CheckName(cfg.msieHack, cfg.emailDn, name);
    if !ok {
      return None;
    }
    var caName := new X509Name(if cfg.selfsign then name.entries else cfg.caName);
    var built := ApplyPolicy(cfg.txt2nid, cfg.policy, name, caName);
    if built.None? {
      return None;
    }
    var subject := built.value;
    if cfg.preserve {
      subject := new X509Name(name.entries);
    }
    if !req.buildable {
      return None;
    }
    if !cfg.emailDn {
      subject := new X509Name(subject.entries);
      RemoveEmail(subject);
    }
    s := Some(subject.entries);
  }

  /** The checks for clashes, by name and then by serial. */
  method FindClash(db: CaDb, rowName: CString, rowSerial: CString) returns (clash: bool)
    requires db.Valid()
    ensures clash <==> (db.unique && HasName(db.Abs(), rowName)) || FindSerial(db.rows, rowSerial).Some?
  {
    var rrow: Option<nat> := None;
    if db.unique {
      rrow := db.GetByName(rowName);
    }
    if rrow.None? {
      rrow := db.GetBySerial(rowSerial);
    }
    clash := rrow.Some?;
  }

  /** The end of `do_body`, with the name and the serial of the new row. */
  method EnterRow(req: Request, rowName: CString, rowSerial: CString, db: CaDb, ghost c: Cert) returns (ok: int)
    requires db.Valid() && rowName == RowName(c) && rowSerial == SerialText(c.serial) && c.exp == req.notAfter
    modifies db
    ensures db.Valid()
    ensures ok == if Clashes(old(db.Abs()), c) then -1
                  else if !req.confirmed then 0 else if !req.signable then -1 else 1
    ensures if ok == 1 then Insert(old(db.Abs()), NewRow(c)) == Some(db.Abs()) else db.Abs() == old(db.Abs())
    ensures db.data == old(db.data) || exists d :: fresh(d) && db.data == old(db.data) + [d]
  {
    ok := -1;
    var clash := FindClash(db, rowName, rowSerial);
    if clash {
      return;
    }
    if !req.confirmed {
      ok := 0;
      return;
    }
    if !req.signable {
      return;
    }
    InsertSucceeds(db.Abs(), c);
    var row := Row([TYPE_VAL], req.notAfter, [], rowSerial, Ascii("unknown"), rowName);
    assert row == NewRow(c);
    var inserted := db.Insert(row);
    if inserted {
      ok := 1;
    }
  }

  /** `do_body`, behind the reading and the verification of the request. */
  method DoBody(cfg: Config, req: Request, serial: int, db: CaDb) returns (ok: int)
    requires db.Valid() && req.checked.Verified?
    modifies db
    ensures db.Valid() && ok == Outcome(cfg, req, serial, old(db.Abs()))
    ensures db.Abs() == Issued(cfg, req, serial, old(db.Abs()))
    ensures db.data == old(db.data) || exists d :: fresh(d) && db.data == old(db.data) + [d]
  {
    var subject := BuildSubject(cfg, req);
    if subject.None? {
      return -1;
    }
    var rowName := cfg.oneline(subject.value);
    var rowSerial := if serial == 0 then [ZERO, ZERO] else Bn2Hex(serial);
    if rowName == [] {
      rowName := rowSerial;
    }
    ok := EnterRow(req, rowName, rowSerial, db, CertOf(cfg, req, serial));
  }

  /** The database behind a request. */
  function Issued(cfg: Config, req: Request, serial: int, db: Db): Db {
    if Outcome(cfg, req, serial, db) == 1 then
      InsertSucceeds(db, CertOf(cfg, req, serial));
      Insert(db, NewRow(CertOf(cfg, req, serial))).value
    else db
  }

  // ---------- all requests ----------

  datatype Batch = Batch(ok: bool, db: Db, serial: int, certs: seq<Cert>)

  /** What the loop has done behind these requests. */
  function IssueAll(cfg: Config, reqs: seq<Request>, serial: int, db: Db): Batch {
    if reqs == [] then Batch(true, db, serial, [])
    else
      var n := |reqs| - 1;
      Next(cfg, reqs[n], IssueAll(cfg, reqs[..n], serial, db))
  }

  function Next(cfg: Config, req: Request, b: Batch): Batch {
    if !b.ok then b
    else
      var j := Outcome(cfg, req, b.serial, b.db);
      if j < 0 then b.(ok := false)
      else if j == 0 then b
      else Batch(true, Issued(cfg, req, b.serial, b.db), b.serial + 1, b.certs + [CertOf(cfg, req, b.serial)])
  }

  /** `certify` */
  method Certify(cfg: Config, req: Request, serial: int, db: CaDb) returns (j: int)
    requires db.Valid()
    modifies db
    ensures db.Valid() && j == Outcome(cfg, req, serial, old(db.Abs()))
    ensures db.Abs() == Issued(cfg, req, serial, old(db.Abs()))
    ensures db.data == old(db.data) || exists d :: fresh(d) && db.data == old(db.data) + [d]
  {
    if req.checked.Unreadable? {
      return -1;
    }
    if req.checked.BadSignature? {
      return 0;
    }
    j := DoBody(cfg, req, serial, db);
  }

  /** One round of the loop of `ca_main` over the requests. */
  method CertifyNext(cfg: Config, req: Request, serial: int, certSk: seq<Cert>, db: CaDb)
    returns (ok: bool, nextSerial: int, certs: seq<Cert>)
    requires db.Valid()
    modifies db
    ensures db.Valid()
    ensures Batch(ok, db.Abs(), nextSerial, certs) == Next(cfg, req, Batch(true, old(db.Abs()), serial, certSk))
    ensures db.data == old(db.data) || exists d :: fresh(d) && db.data == old(db.data) + [d]
  {
    ok, nextSerial, certs := true, serial, certSk;
    var j := Certify(cfg, req, serial, db);
    if j < 0 {
      ok := false;
    }
    if j > 0 {
      nextSerial := nextSerial + 1;
      certs := certs + [CertOf(cfg, req, serial)];
    }
  }

  method CertifyAll(cfg: Config, reqs: seq<Request>, initial: int, db: CaDb)
    returns (ok: bool, serial: int, certSk: seq<Cert>)
    requires db.Valid()
    modifies db
    ensures db.Valid() && Batch(ok, db.Abs(), serial, certSk) == IssueAll(cfg, reqs, initial, old(db.Abs()))
    ensures forall d :: d in db.data ==> d in old(db.data) || fresh(d)
  {
    ok, serial, certSk := true, initial, [];
    ghost var before := db.Abs();
    for i := 0 to |reqs|
      invariant db.Valid() && Batch(true, db.Abs(), serial, certSk) == IssueAll(cfg, reqs[..i], initial, before)
      invariant ok && forall d :: d in db.data ==> d in old(db.data) || fresh(d)
    {
      assert reqs[..i + 1][..i] == reqs[..i];
      ok, serial, certSk := CertifyNext(cfg, reqs[i], serial, certSk, db);
      if !ok {
        StaysFailed(cfg, reqs, i + 1, initial, before);
        return;
      }
    }
    assert reqs[..|reqs|] == reqs;
  }

  /** A run that was given up does nothing more. */
  lemma {:induction false} StaysFailed(cfg: Config, reqs: seq<Request>, i: nat, serial: int, db: Db)
    requires i <= |reqs| && !IssueAll(cfg, reqs[..i], serial, db).ok
    ensures IssueAll(cfg, reqs, serial, db) == IssueAll(cfg, reqs[..i], serial, db)
    decreases |reqs|
  {
    if i == |reqs| {
      assert reqs[..i] == reqs;
    } else {
      var n := |reqs| - 1;
      assert reqs[..n][..i] == reqs[..i];
      StaysFailed(cfg, reqs[..n], i, serial, db);
    }
  }

  // ---------- conservation ----------

  function NewRows(certs: seq<Cert>): (rows: seq<Row>)
    ensures |rows| == |certs|
  {
    seq(|certs|, i requires 0 <= i < |certs| => NewRow(certs[i]))
  }

  /** Consecutive serials from the first one on; one row each, behind those that were there;
      and the next serial is the first one that was not used. */
  predicate Conserved(b: Batch, serial: int, db: Db) {
    && b.serial == serial + |b.certs|
    && (forall i :: 0 <= i < |b.certs| ==> b.certs[i].serial == serial + i)
    && b.db.rows == db.rows + NewRows(b.certs) && b.db.unique == db.unique
  }

  lemma NextConserves(cfg: Config, req: Request, b: Batch, serial: int, db: Db)
    requires Conserved(b, serial, db)
    ensures Conserved(Next(cfg, req, b), serial, db)
  {
    if b.ok && Outcome(cfg, req, b.serial, b.db) == 1 {
      var c := CertOf(cfg, req, b.serial);
      InsertSucceeds(b.db, c);
      assert NewRows(b.certs + [c]) == NewRows(b.certs) + [NewRow(c)];
    }
  }

  /** The certificates of a run have consecutive serials, each has exactly one new row, and
      the serial that is kept for the next run is the first one that was not used. */
  lemma {:induction false} SerialsAreConserved(cfg: Config, reqs: seq<Request>, serial: int, db: Db)
    ensures Conserved(IssueAll(cfg, reqs, serial, db), serial, db)
  {
    if reqs != [] {
      var n := |reqs| - 1;
      SerialsAreConserved(cfg, reqs[..n], serial, db);
      NextConserves(cfg, reqs[n], IssueAll(cfg, reqs[..n], serial, db), serial, db);
    } else {
      assert NewRows([]) == [];
    }
  }

  lemma IssueMore(cfg: Config, reqs: seq<Request>, r: Request, serial: int, db: Db)
    ensures IssueAll(cfg, reqs + [r], serial, db) == Next(cfg, r, IssueAll(cfg, reqs, serial, db))
  {
    assert (reqs + [r])[..|reqs|] == reqs;
  }

  /** A declined request leaves no trace: the run is the same without it. */
  lemma {:induction false} DeclinedLeavesNoTrace(cfg: Config, a: seq<Request>, r: Request, b: seq<Request>,
      serial: int, db: Db)
    requires var s := IssueAll(cfg, a, serial, db); s.ok ==> Outcome(cfg, r, s.serial, s.db) == 0
    ensures IssueAll(cfg, a + [r] + b, serial, db) == IssueAll(cfg, a + b, serial, db)
    decreases |b|
  {
    if b == [] {
      assert a + [r] + b == a + [r] && a + b == a;
      IssueMore(cfg, a, r, serial, db);
    } else {
      var front, last := b[..|b| - 1], b[|b| - 1];
      DeclinedLeavesNoTrace(cfg, a, r, front, serial, db);
      assert a + b == a + front + [last] && a + [r] + b == a + [r] + front + [last];
      IssueMore(cfg, a + front, last, serial, db);
      IssueMore(cfg, a + [r] + front, last, serial, db);
    }
  }

  /** The contract of the code that sets the validity times. */
  predicate TimesAreSet(reqs: seq<Request>) {
    forall i :: 0 <= i < |reqs| && reqs[i].buildable ==> TimeOk(reqs[i].notAfter)
  }

  /** Issuing keeps the database acceptable, indexed, and all its old rows. */
  lemma {:induction false} IssueKeepsAccepted(oidOk: OidFn, cfg: Config, reqs: seq<Request>, serial: int, db: Db)
    requires IsIndexed(db) && Accepted(oidOk, db.unique, db.rows) && TimesAreSet(reqs)
    ensures var d := IssueAll(cfg, reqs, serial, db).db;
            IsIndexed(d) && d.unique == db.unique && Accepted(oidOk, d.unique, d.rows) && Grows(db.rows, d.rows)
    ensures forall c :: c in IssueAll(cfg, reqs, serial, db).certs ==> TimeOk(c.exp)
  {
    if reqs != [] {
      var n := |reqs| - 1;
      IssueKeepsAccepted(oidOk, cfg, reqs[..n], serial, db);
      var b := IssueAll(cfg, reqs[..n], serial, db);
      if b.ok && Outcome(cfg, reqs[n], b.serial, b.db) == 1 {
        OneMoreIsAccepted(oidOk, b.db, CertOf(cfg, reqs[n], b.serial));
        GrowsTransitive(db.rows, b.db.rows, Issued(cfg, reqs[n], b.serial, b.db).rows);
      }
    }
  }

  lemma OneMoreIsAccepted(oidOk: OidFn, db: Db, c: Cert)
    requires IsIndexed(db) && Accepted(oidOk, db.unique, db.rows) && !Clashes(db, c) && TimeOk(c.exp)
    ensures Insert(db, NewRow(c)).Some?
    ensures var d := Insert(db, NewRow(c)).value;
            IsIndexed(d) && d.unique == db.unique && Accepted(oidOk, d.unique, d.rows) && Grows(db.rows, d.rows)
  {
    InsertSucceeds(db, c);
    InsertGrows(db, c);
    NewRowOk(oidOk, c);
  }

  /** A row that was made for a certificate is found by it, under its own name. */
  lemma NewRowCanBeRevoked(oidOk: OidFn, db: Db, c: Cert, k: nat, now: CString)
    requires SerialsUnique(db.rows) && k < |db.rows| && db.rows[k] == NewRow(c)
    ensures FindSerial(db.rows, SerialText(c.serial)) == Some(k)
    ensures Revoke(oidOk, now, db, c, RevNone, []) == (true, db.(rows := db.rows[k := MarkRevoked(NewRow(c), now)]))
  {
    FindSerialUnique(db.rows, SerialText(c.serial), k);
    assert now + ExtraText(NoExtra) == now;
  }

  lemma BatchCanBeRevoked(oidOk: OidFn, db: Db, b: Batch, serial: int, i: nat, now: CString)
    requires Conserved(b, serial, db) && SerialsUnique(b.db.rows) && i < |b.certs|
    ensures |db.rows| + i < |b.db.rows| && b.certs[i].serial == serial + i
    ensures Revoke(oidOk, now, b.db, b.certs[i], RevNone, [])
         == (true, b.db.(rows := b.db.rows[|db.rows| + i := MarkRevoked(NewRow(b.certs[i]), now)]))
  {
    assert b.db.rows[|db.rows| + i] == NewRow(b.certs[i]);
    NewRowCanBeRevoked(oidOk, b.db, b.certs[i], |db.rows| + i, now);
  }

  /** Every certificate that a run has issued can then be revoked. */
  lemma IssuedCanBeRevoked(oidOk: OidFn, cfg: Config, reqs: seq<Request>, serial: int, db: Db, i: nat, now: CString)
    requires IsIndexed(db) && Accepted(oidOk, db.unique, db.rows) && TimesAreSet(reqs)
    requires i < |IssueAll(cfg, reqs, serial, db).certs|
    ensures var b := IssueAll(cfg, reqs, serial, db);
            && |db.rows| + i < |b.db.rows| && b.certs[i].serial == serial + i
            && Revoke(oidOk, now, b.db, b.certs[i], RevNone, [])
               == (true, b.db.(rows := b.db.rows[|db.rows| + i := MarkRevoked(NewRow(b.certs[i]), now)]))
  {
    var b := IssueAll(cfg, reqs, serial, db);
    SerialsAreConserved(cfg, reqs, serial, db);
    IssueKeepsAccepted(oidOk, cfg, reqs, serial, db);
    BatchCanBeRevoked(oidOk, db, b, serial, i, now);
  }
}

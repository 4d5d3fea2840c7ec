/** One invocation of the program over its files: the text of the database, the next serial
    number, and the certificates that it writes. An invocation loads the database, may mark expired rows, may issue
    certificates, and may revoke one. */
module Invocation {
  import opened Asn1Time
  import opened Bytes
  import opened CaDatabase
  import opened Database
  import opened Issue
  import opened RevInfo
  import opened TxtDb

  /** `written` lists the certificates in the order in which they were written to disk. */
  datatype Store = Store(file: CString, serial: int, written: seq<Cert>)

  /** `commit` is the answer to the question that is asked before anything is written. */
  datatype IssueJob = IssueJob(cfg: Config, reqs: seq<Request>, commit: bool)

  /** The certificate to revoke, if it can be loaded; RevValid stands for `-valid`. */
  datatype RevokeJob = RevokeJob(cert: Option<Cert>, revType: RevType, arg: CString)

  /** How far the saving of new certificates gets: the first ones may have been written when
      it stops; then the serial file is put in place, and then the database. */
  datatype Saving = NothingSaved(written: nat) | SerialSaved | BothSaved

  /** What one invocation is asked to do, at what time, and which of its savings succeed. */
  datatype Command = Command(now: Tm, due: CString -> bool, updatedb: bool, issue: Option<IssueJob>,
                             crlFails: bool, revoke: Option<RevokeJob>,
                             updateSaved: bool, issueSaved: Saving, revokeSaved: bool)

  /** Where an invocation stands: whether it goes on, its database, and the files. */
  datatype Stage = Stage(go: bool, db: Db, store: Store)

  lemma {:induction false} WrittenIsText(rows: seq<Row>)
    ensures 0 !in WriteDb(rows)
  {
    if rows != [] {
      JoinKeepsOut(Fields(rows[0]), 0);
      WrittenIsText(rows[1..]);
    }
  }

  function FileOf(rows: seq<Row>): CString {
    WrittenIsText(rows);
    WriteDb(rows)
  }

  // ---------- the stages ----------

  function Load(oidOk: OidFn, unique: bool, store: Store): Stage {
    var t := ReadDb(store.file);
    if t.None? || !Accepted(oidOk, unique, t.value) then Stage(false, Db([], unique, {}), store)
    else Stage(true, Indexed(unique, t.value), store)
  }

  function Update(o: Command, s: Stage): Stage {
    if !s.go || !o.updatedb || CountDue(o.due, s.db.rows) == 0 then s
    else
      var rows := ExpireAll(o.due, s.db.rows);
      Stage(o.updateSaved, s.db.(rows := rows), if o.updateSaved then s.store.(file := FileOf(rows)) else s.store)
  }

  function IssueJobs(o: Command, s: Stage): Stage {
    if !s.go || o.issue.None? then s
    else AfterBatch(o, s.store, IssueAll(o.issue.value.cfg, o.issue.value.reqs, s.store.serial, s.db))
  }

  /** What becomes of the certificates that were issued. */
  function AfterBatch(o: Command, store: Store, b: Batch): Stage
    requires o.issue.Some?
  {
    if !b.ok then Stage(false, b.db, store)
    else if b.certs == [] then Stage(true, b.db, store)
    else if !o.issue.value.commit then Stage(false, b.db, store)
    else
      var all := store.written + b.certs;
      match o.issueSaved
      case NothingSaved(n) =>
        Stage(false, b.db, store.(written := store.written + b.certs[..Min(n, |b.certs|)]))
      case SerialSaved => Stage(false, b.db, store.(serial := b.serial, written := all))
      case BothSaved => Stage(true, b.db, Store(FileOf(b.db.rows), b.serial, all))
  }

  function RevokeJobs(oidOk: OidFn, o: Command, s: Stage): Stage
    requires IsTime(o.now)
  {
    if !ReachesRevoke(o, s) then s.(go := s.go && !o.crlFails && o.revoke.None?)
    else
      AfterRevoke(s, Revoke(oidOk, TimeText(o.now), s.db, o.revoke.value.cert.value,
                            o.revoke.value.revType, o.revoke.value.arg), o.revokeSaved)
  }

  predicate ReachesRevoke(o: Command, s: Stage) {
    s.go && !o.crlFails && o.revoke.Some? && o.revoke.value.cert.Some?
  }

  /** Only a revocation that succeeded is saved. */
  function AfterRevoke(s: Stage, r: (bool, Db), saved: bool): Stage {
    Stage(r.0 && saved, r.1, if r.0 && saved then s.store.(file := FileOf(r.1.rows)) else s.store)
  }

  function Invoke(oidOk: OidFn, unique: bool, store: Store, o: Command): Store
    requires IsTime(o.now)
  {
    RevokeJobs(oidOk, o, IssueJobs(o, Update(o, Load(oidOk, unique, store)))).store
  }

  // ---------- the program ----------

  /** The database part of `ca_main`. */
  method CaMain(oidOk: OidFn, unique: bool, store: Store, o: Command) returns (after: Store)
    requires IsTime(o.now)
    ensures after == Invoke(oidOk, unique, store, o)
  {
    var db := LoadIndex(oidOk, unique, store);
    if db == null {
      return store;
    }
    AcceptedDates(oidOk, db.rows);
    after := RunJobs(oidOk, o, db, store);
  }

  method RunJobs(oidOk: OidFn, o: Command, db: CaDb, store: Store) returns (after: Store)
    requires IsTime(o.now) && db.Valid() && DatesOk(db.rows)
    modifies db, db.data
    ensures after == RevokeJobs(oidOk, o, IssueJobs(o, Update(o, Stage(true, old(db.Abs()), store)))).store
  {
    var ok;
    ok, after := DoUpdate(o, db, store);
    if !ok {
      return;
    }
    ok, after := DoIssue(o, db, after);
    if !ok || o.crlFails {
      return;
    }
    assert forall i :: 0 <= i < |db.data| ==> db.data[i] in old(db.data) || fresh(db.data[i]);
    ok, after := DoRevokeJob(oidOk, o, db, after);
  }

  method LoadIndex(oidOk: OidFn, unique: bool, store: Store) returns (loaded: CaDb?)
    ensures loaded == null <==> !Load(oidOk, unique, store).go
    ensures loaded != null ==>
              && loaded.Valid() && fresh(loaded) && fresh(loaded.data) && RowsOk(oidOk, loaded.rows)
              && Load(oidOk, unique, store) == Stage(true, loaded.Abs(), store)
  {
    var table := ReadDb(store.file);
    if table.None? {
      return null;
    }
    var db := new CaDb(table.value, unique);
    var ok := db.CheckRows(oidOk);
    if !ok {
      return null;
    }
    ok := db.IndexIndex();
    loaded := if ok then db else null;
  }

  lemma AcceptedDates(oidOk: OidFn, rows: seq<Row>)
    requires RowsOk(oidOk, rows)
    ensures DatesOk(rows)
  {
  }

  lemma {:induction false} WriteDbAppend(rows: seq<Row>, r: Row)
    ensures WriteDb(rows + [r]) == WriteDb(rows) + WriteLine(r)
  {
    if rows == [] {
      assert [r][1..] == [] && WriteDb([r]) == WriteLine(r) + [] && [] + [r] == [r];
    } else {
      WriteDbAppend(rows[1..], r);
      var all, first, more := rows + [r], WriteLine(rows[0]), WriteDb(rows[1..]);
      assert all[0] == rows[0] && all[1..] == rows[1..] + [r];
      assert first + (more + WriteLine(r)) == first + more + WriteLine(r);
    }
  }

  /** `save_index` */
  method SaveIndex(db: CaDb) returns (file: CString)
    requires db.Valid()
    ensures file == FileOf(db.rows)
  {
    var text: seq<byte> := [];
    for i := 0 to |db.data|
      invariant text == WriteDb(db.rows[..i])
    {
      var pp := db.data[i];
      assert pp.Is(db.rows[i]) && db.rows[..i + 1] == db.rows[..i] + [db.rows[i]];
      WriteDbAppend(db.rows[..i], db.rows[i]);
      text := text + WriteLine(Row(pp.typ, pp.exp, pp.rev, pp.serial, pp.file, pp.name));
    }
    assert db.rows[..|db.data|] == db.rows;
    WrittenIsText(db.rows);
    file := text;
  }

  method DoUpdate(o: Command, db: CaDb, store: Store) returns (ok: bool, after: Store)
    requires db.Valid() && DatesOk(db.rows)
    modifies db, db.data
    ensures db.Valid() && db.data == old(db.data)
    ensures Stage(ok, db.Abs(), after) == Update(o, Stage(true, old(db.Abs()), store))
  {
    ok, after := true, store;
    if o.updatedb {
      ghost var before := db.rows;
      var i, at := db.DoUpdatedb(o.due);
      if i == 0 {
        NoneExpired(o.due, before);
      } else {
        var file := SaveIndex(db);
        ok := o.updateSaved;
        if ok {
          after := after.(file := file);
        }
      }
    }
  }

  lemma NoneExpired(due: CString -> bool, rows: seq<Row>)
    requires CountDue(due, rows) == 0
    ensures ExpireAll(due, rows) == rows
  {
    CountDueZero(due, rows);
  }

  /** The loop that writes the new certificates, until one cannot be written. */
  method WriteCertificates(before: seq<Cert>, certSk: seq<Cert>, saving: Saving) returns (written: seq<Cert>)
    ensures written == before + certSk[..if saving.NothingSaved? then Min(saving.written, |certSk|) else |certSk|]
  {
    written := before;
    for i := 0 to |certSk|
      invariant written == before + certSk[..i] && (saving.NothingSaved? ==> i <= saving.written)
    {
      if saving.NothingSaved? && i == saving.written {
        return;
      }
      assert certSk[..i + 1] == certSk[..i] + [certSk[i]];
      written := written + [certSk[i]];
    }
  }

  method DoIssue(o: Command, db: CaDb, store: Store) returns (ok: bool, after: Store)
    requires db.Valid()
    modifies db
    ensures db.Valid() && forall d :: d in db.data ==> d in old(db.data) || fresh(d)
    ensures Stage(ok, db.Abs(), after) == IssueJobs(o, Stage(true, old(db.Abs()), store))
  {
    ok, after := true, store;
    if o.issue.Some? {
      var serial, certSk;
      ok, serial, certSk := CertifyAll(o.issue.value.cfg, o.issue.value.reqs, store.serial, db);
      if ok && certSk != [] {
        if !o.issue.value.commit {
          ok := false;
          return;
        }
        var file := SaveIndex(db);
        ok := false;
        var written := WriteCertificates(store.written, certSk, o.issueSaved);
        after := after.(written := written);
        if o.issueSaved.NothingSaved? {
          return;
        }
        after := after.(serial := serial);
        if o.issueSaved.SerialSaved? {
          return;
        }
        after := after.(file := file);
        ok := true;
      }
    }
  }

  method DoRevokeJob(oidOk: OidFn, o: Command, db: CaDb, store: Store) returns (ok: bool, after: Store)
    requires db.Valid() && IsTime(o.now) && !o.crlFails
    modifies db, db.data
    ensures db.Valid() && Stage(ok, db.Abs(), after) == RevokeJobs(oidOk, o, Stage(true, old(db.Abs()), store))
  {
    ok, after := true, store;
    if o.revoke.Some? {
      if o.revoke.value.cert.None? {
        ok := false;
        return;
      }
      var job := o.revoke.value;
      ok := db.DoRevoke(oidOk, TimeText(o.now), job.cert.value, job.revType, job.arg);
      if ok {
        var file := SaveIndex(db);
        ok := o.revokeSaved;
        if ok {
          after := after.(file := file);
        }
      }
    }
  }
}

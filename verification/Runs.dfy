/** What whole runs of the program keep, whatever fails on the way, and exactly when its file
    is accepted again. */
module Runs {
  import opened Asn1Time
  import opened Bytes
  import opened CleanRows
  import CrlOcsp
  import opened Database
  import opened Invocation
  import opened Issue
  import opened RevInfo
  import opened SerialHex
  import opened TxtDb

  predicate Readable(store: Store) { ReadDb(store.file).Some? }

  function RowsIn(store: Store): seq<Row> {
    var t := ReadDb(store.file);
    if t.Some? then t.value else []
  }

  /** A file that the program accepts, and in which every row has a status. */
  predicate Healthy(oidOk: OidFn, unique: bool, store: Store) {
    Readable(store) && Accepted(oidOk, unique, RowsIn(store)) && HaveStatus(RowsIn(store))
  }

  /** While an invocation goes on, its rows are those in the file, and are accepted. */
  predicate Working(oidOk: OidFn, unique: bool, s: Stage) {
    && Readable(s.store)
    && (s.go ==>
          && s.db.rows == RowsIn(s.store) && s.db.unique == unique && IsIndexed(s.db)
          && Accepted(oidOk, unique, s.db.rows))
  }

  /** The certificates that are issued have times, and names on one line. */
  ghost predicate IssueOk(job: IssueJob) {
    && TimesAreSet(job.reqs)
    && forall n :: NEWLINE !in job.cfg.oneline(n)
  }

  /** What the surroundings promise an invocation. A certificate to revoke need not have a
      well-formed expiry date: loading it only checks the length. */
  ghost predicate CommandOk(o: Command) {
    && IsTime(o.now)
    && (o.issue.Some? ==> IssueOk(o.issue.value))
    && (o.revoke.Some? && o.revoke.value.cert.Some? ==> CertOk(o.revoke.value.cert.value))
  }

  /** What becomes of the files: rows are only added and marked, serials only used up, and
      certificates only added. */
  predicate Follows(a: Store, b: Store) {
    && Readable(a) && Readable(b)
    && Grows(RowsIn(a), RowsIn(b)) && MarksFound(RowsIn(a), RowsIn(b))
    && a.serial <= b.serial && a.written <= b.written
  }

  lemma FollowsItself(a: Store)
    requires Readable(a)
    ensures Follows(a, a)
  {
  }

  /** The database file has not been touched. */
  lemma SameFile(a: Store, b: Store)
    requires Readable(a) && b.file == a.file && a.serial <= b.serial && a.written <= b.written
    ensures Follows(a, b) && RowsIn(b) == RowsIn(a)
  {
  }

  lemma FollowsTransitive(a: Store, b: Store, c: Store)
    requires Follows(a, b) && Follows(b, c)
    ensures Follows(a, c)
  {
    GrowsTransitive(RowsIn(a), RowsIn(b), RowsIn(c));
    MarksFoundTransitive(RowsIn(a), RowsIn(b), RowsIn(c));
  }

  /** Rows are found again in the file exactly if all of them are clean. */
  lemma Saved(rows: seq<Row>)
    ensures ReadDb(FileOf(rows)) == Some(rows) <==> AllClean(rows)
  {
    if AllClean(rows) { FileRoundTrip(rows); }
    if ReadDb(FileOf(rows)) == Some(rows) { ReadRowsAreClean(FileOf(rows)); }
  }

  // ---------- one invocation ----------

  lemma LoadWorks(oidOk: OidFn, unique: bool, store: Store)
    requires Readable(store)
    ensures Working(oidOk, unique, Load(oidOk, unique, store)) && Load(oidOk, unique, store).store == store
    ensures Load(oidOk, unique, store).go <==> Accepted(oidOk, unique, RowsIn(store))
  {
  }

  lemma ExpiredIsSaved(oidOk: OidFn, due: CString -> bool, db: Db, store: Store)
    requires IsIndexed(db) && Accepted(oidOk, db.unique, db.rows) && Readable(store) && db.rows == RowsIn(store)
    ensures var rows := ExpireAll(due, db.rows);
            var after := store.(file := FileOf(rows));
            && IsIndexed(db.(rows := rows)) && Accepted(oidOk, db.unique, rows)
            && Follows(store, after) && RowsIn(after) == rows
  {
    ReadRowsAreClean(store.file);
    ExpireKeepsAccepted(oidOk, due, db);
    ExpiredRowsAreClean(due, db.rows);
    Saved(ExpireAll(due, db.rows));
  }

  lemma UpdateKeeps(oidOk: OidFn, unique: bool, o: Command, s: Stage)
    requires Working(oidOk, unique, s)
    ensures var t := Update(o, s);
            && Working(oidOk, unique, t) && Follows(s.store, t.store)
            && t.store.serial == s.store.serial && t.store.written == s.store.written
            && |RowsIn(t.store)| == |RowsIn(s.store)|
            && (Accepted(oidOk, unique, RowsIn(s.store)) ==> Accepted(oidOk, unique, RowsIn(t.store)))
  {
    FollowsItself(s.store);
    if s.go {
      ExpiredIsSaved(oidOk, o.due, s.db, s.store);
    }
  }

  lemma NewRowsAreClean(rows: seq<Row>, certs: seq<Cert>)
    requires AllClean(rows) && forall i :: 0 <= i < |certs| ==> CertOk(certs[i])
    ensures AllClean(rows + NewRows(certs))
  {
    forall i | 0 <= i < |certs|
      ensures IsClean(NewRow(certs[i]))
    {
      NewRowIsClean(certs[i]);
    }
  }

  lemma {:induction false} CertNames(job: IssueJob, reqs: seq<Request>, serial: int, db: Db)
    requires IssueOk(job)
    ensures forall c :: c in IssueAll(job.cfg, reqs, serial, db).certs ==> NEWLINE !in c.name
  {
    if reqs != [] { CertNames(job, reqs[..|reqs| - 1], serial, db); }
  }

  /** The certificates of a run, saved. */
  lemma IssuedIsSaved(oidOk: OidFn, job: IssueJob, db: Db, store: Store)
    requires IsIndexed(db) && Accepted(oidOk, db.unique, db.rows) && Readable(store) && db.rows == RowsIn(store)
    requires IssueOk(job)
    ensures var b := IssueAll(job.cfg, job.reqs, store.serial, db);
            var after := Store(FileOf(b.db.rows), b.serial, store.written + b.certs);
            && IsIndexed(b.db) && b.db.unique == db.unique && Accepted(oidOk, db.unique, b.db.rows)
            && Follows(store, after) && RowsIn(after) == b.db.rows
            && b.serial - store.serial == |b.db.rows| - |db.rows| == |b.certs|
            && (b.certs == [] ==> b.db.rows == db.rows)
  {
    var b := IssueAll(job.cfg, job.reqs, store.serial, db);
    SerialsAreConserved(job.cfg, job.reqs, store.serial, db);
    IssueKeepsAccepted(oidOk, job.cfg, job.reqs, store.serial, db);
    CertNames(job, job.reqs, store.serial, db);
    forall c | c in b.certs
      ensures CertOk(c)
    {
      TimeIsField(c.exp);
    }
    ReadRowsAreClean(store.file);
    NewRowsAreClean(db.rows, b.certs);
    Saved(b.db.rows);
  }

  lemma BatchKeeps(oidOk: OidFn, unique: bool, o: Command, store: Store, b: Batch)
    requires o.issue.Some? && Readable(store) && b.db.unique == unique && IsIndexed(b.db)
    requires Accepted(oidOk, unique, b.db.rows) && b.serial - store.serial == |b.db.rows| - |RowsIn(store)| == |b.certs|
    requires var after := Store(FileOf(b.db.rows), b.serial, store.written + b.certs);
             Follows(store, after) && RowsIn(after) == b.db.rows
    requires b.certs == [] ==> b.db.rows == RowsIn(store)
    ensures var t := AfterBatch(o, store, b);
            && Working(oidOk, unique, t) && Follows(store, t.store)
            && (if o.issueSaved.SerialSaved? && o.issue.value.commit && b.ok && b.certs != []
                then t.store.serial > store.serial && RowsIn(t.store) == RowsIn(store)
                else t.store.serial - store.serial == |RowsIn(t.store)| - |RowsIn(store)|)
            && (RowsIn(t.store) == RowsIn(store) || RowsIn(t.store) == b.db.rows)
  {
    var t := AfterBatch(o, store, b);
    if !(b.ok && b.certs != [] && o.issue.value.commit && o.issueSaved.BothSaved?) {
      SameFile(store, t.store);
    }
  }

  /** The serial file gets into place and the database does not. */
  predicate LosesSerials(o: Command, s: Stage) {
    && s.go && o.issue.Some? && o.issueSaved.SerialSaved? && o.issue.value.commit
    && var b := IssueAll(o.issue.value.cfg, o.issue.value.reqs, s.store.serial, s.db);
       b.ok && b.certs != []
  }

  /** The saved serial advances by the number of rows that were saved; exactly if serials are
      lost, it advances and there is no new row. */
  lemma IssueKeeps(oidOk: OidFn, unique: bool, o: Command, s: Stage)
    requires Working(oidOk, unique, s) && (o.issue.Some? ==> IssueOk(o.issue.value))
    ensures var t := IssueJobs(o, s);
            && Working(oidOk, unique, t) && Follows(s.store, t.store)
            && (LosesSerials(o, s)
                <==> t.store.serial - s.store.serial != |RowsIn(t.store)| - |RowsIn(s.store)|)
            && (LosesSerials(o, s) ==> t.store.serial > s.store.serial && RowsIn(t.store) == RowsIn(s.store))
            && (Accepted(oidOk, unique, RowsIn(s.store)) ==> Accepted(oidOk, unique, RowsIn(t.store)))
  {
    if s.go && o.issue.Some? {
      var job := o.issue.value;
      IssuedIsSaved(oidOk, job, s.db, s.store);
      BatchKeeps(oidOk, unique, o, s.store, IssueAll(job.cfg, job.reqs, s.store.serial, s.db));
    } else {
      FollowsItself(s.store);
    }
  }

  /** A revocation that is reached, succeeds and is saved. */
  predicate Revokes(oidOk: OidFn, o: Command, s: Stage)
    requires IsTime(o.now)
  {
    && ReachesRevoke(o, s) && o.revokeSaved
    && var job := o.revoke.value;
       Revoke(oidOk, TimeText(o.now), s.db, job.cert.value, job.revType, job.arg).0
  }

  /** The rows of a successful revocation are found again in the saved file exactly if it had
      no need to insert a certificate that the file cannot hold. */
  lemma RevokedIsReadBack(oidOk: OidFn, now: Tm, db: Db, c: Cert, revType: RevType, arg: CString)
    requires OidsAreFields(oidOk) && IsTime(now) && IsIndexed(db) && SerialsUnique(db.rows) && AllClean(db.rows)
    requires Revoke(oidOk, TimeText(now), db, c, revType, arg).0
    ensures var rows := Revoke(oidOk, TimeText(now), db, c, revType, arg).1.rows;
            ReadDb(FileOf(rows)) == Some(rows) <==> FindSerial(db.rows, SerialText(c.serial)).Some? || CertOk(c)
  {
    RevokeKeepsClean(oidOk, now, db, c, revType, arg);
    Saved(Revoke(oidOk, TimeText(now), db, c, revType, arg).1.rows);
  }

  lemma RevokedIsSaved(oidOk: OidFn, now: Tm, db: Db, c: Cert, revType: RevType, arg: CString, store: Store)
    requires OidsAreFields(oidOk) && IsTime(now) && CertOk(c)
    requires IsIndexed(db) && Accepted(oidOk, db.unique, db.rows) && Readable(store) && db.rows == RowsIn(store)
    requires Revoke(oidOk, TimeText(now), db, c, revType, arg).0
    ensures var rows := Revoke(oidOk, TimeText(now), db, c, revType, arg).1.rows;
            var after := store.(file := FileOf(rows));
            && Follows(store, after) && RowsIn(after) == rows
            && (Accepted(oidOk, db.unique, rows) <==> RevokeIsSound(db, c, revType, now))
  {
    ReadRowsAreClean(store.file);
    RevokeKeepsAccepted(oidOk, now, db, c, revType, arg);
    RevokeKeepsUnique(oidOk, now, db, c, revType, arg);
    RevokeMarksFound(oidOk, TimeText(now), db, c, revType, arg);
    RevokedIsReadBack(oidOk, now, db, c, revType, arg);
    RevokeResult(oidOk, TimeText(now), db, c, revType, arg);
  }

  /** What a revocation leaves in the file. */
  lemma RevokeStores(oidOk: OidFn, o: Command, s: Stage)
    requires IsTime(o.now)
    ensures RevokeJobs(oidOk, o, s).store ==
              if !Revokes(oidOk, o, s) then s.store
              else
                var job := o.revoke.value;
                s.store.(file :=
                  FileOf(Revoke(oidOk, TimeText(o.now), s.db, job.cert.value, job.revType, job.arg).1.rows))
  {
  }

  lemma RevokeKeeps(oidOk: OidFn, unique: bool, o: Command, s: Stage)
    requires OidsAreFields(oidOk) && Working(oidOk, unique, s) && CommandOk(o)
    ensures var t := RevokeJobs(oidOk, o, s).store;
            && Follows(s.store, t) && t.serial == s.store.serial && t.written == s.store.written
            && (if Revokes(oidOk, o, s) then
                  Accepted(oidOk, unique, RowsIn(t))
                  <==> RevokeIsSound(s.db, o.revoke.value.cert.value, o.revoke.value.revType, o.now)
                else t == s.store)
  {
    RevokeStores(oidOk, o, s);
    if Revokes(oidOk, o, s) {
      var job := o.revoke.value;
      RevokedIsSaved(oidOk, o.now, s.db, job.cert.value, job.revType, job.arg, s.store);
    } else {
      FollowsItself(s.store);
    }
  }

  /** The stage at which an invocation comes to its revocation. */
  function BeforeRevoke(oidOk: OidFn, unique: bool, store: Store, o: Command): Stage {
    IssueJobs(o, Update(o, Load(oidOk, unique, store)))
  }

  lemma BeforeRevokeKeeps(oidOk: OidFn, unique: bool, store: Store, o: Command)
    requires Readable(store) && CommandOk(o)
    ensures var s := BeforeRevoke(oidOk, unique, store, o);
            && Working(oidOk, unique, s) && Follows(store, s.store)
            && (Accepted(oidOk, unique, RowsIn(store)) ==> Accepted(oidOk, unique, RowsIn(s.store)))
  {
    LoadWorks(oidOk, unique, store);
    var s0 := Load(oidOk, unique, store);
    UpdateKeeps(oidOk, unique, o, s0);
    IssueKeeps(oidOk, unique, o, Update(o, s0));
    FollowsTransitive(store, Update(o, s0).store, BeforeRevoke(oidOk, unique, store, o).store);
  }

  /** One invocation, wherever it stops and whatever time it is, leaves a file that can be
      read, in which every row is still there at its place and no revocation is undone. */
  lemma InvocationKeeps(oidOk: OidFn, unique: bool, store: Store, o: Command)
    requires OidsAreFields(oidOk) && Readable(store) && CommandOk(o)
    ensures Follows(store, Invoke(oidOk, unique, store, o))
  {
    var s := BeforeRevoke(oidOk, unique, store, o);
    BeforeRevokeKeeps(oidOk, unique, store, o);
    RevokeKeeps(oidOk, unique, o, s);
    FollowsTransitive(store, s.store, Invoke(oidOk, unique, store, o));
  }

  /** The invocation saves a revocation, or an inserted certificate, that the load check will
      refuse. */
  predicate RevokesUnsoundly(oidOk: OidFn, unique: bool, store: Store, o: Command)
    requires IsTime(o.now)
  {
    var s := BeforeRevoke(oidOk, unique, store, o);
    Revokes(oidOk, o, s) && !RevokeIsSound(s.db, o.revoke.value.cert.value, o.revoke.value.revType, o.now)
  }

  /** Exactly that makes the program refuse its own file. */
  lemma AcceptedUnlessUnsound(oidOk: OidFn, unique: bool, store: Store, o: Command)
    requires OidsAreFields(oidOk) && Readable(store) && CommandOk(o)
    ensures Accepted(oidOk, unique, RowsIn(Invoke(oidOk, unique, store, o)))
       <==> Accepted(oidOk, unique, RowsIn(store)) && !RevokesUnsoundly(oidOk, unique, store, o)
  {
    var s := BeforeRevoke(oidOk, unique, store, o);
    BeforeRevokeKeeps(oidOk, unique, store, o);
    RevokeKeeps(oidOk, unique, o, s);
    if !Accepted(oidOk, unique, RowsIn(store)) { RefusedOnce(oidOk, unique, store, o); }
  }

  lemma RefusedOnce(oidOk: OidFn, unique: bool, store: Store, o: Command)
    requires IsTime(o.now) && (!Readable(store) || !Accepted(oidOk, unique, RowsIn(store)))
    ensures Invoke(oidOk, unique, store, o) == store && !RevokesUnsoundly(oidOk, unique, store, o)
  {
  }

  /** The invocation marks a row as revoked in a year that has no two-digit form. */
  predicate RevokesLate(oidOk: OidFn, unique: bool, store: Store, o: Command)
    requires IsTime(o.now)
  {
    && Revokes(oidOk, o, BeforeRevoke(oidOk, unique, store, o))
    && o.revoke.value.revType != RevValid && !HasUtcForm(o.now)
  }

  /** A certificate to revoke has a well-formed expiry date. */
  predicate HasExpiry(o: Command) {
    o.revoke.Some? && o.revoke.value.cert.Some? ==> TimeOk(o.revoke.value.cert.value.exp)
  }

  /** Where every row has a status and every certificate an expiry date, the year is all that
      matters. */
  lemma UnsoundIfLate(oidOk: OidFn, unique: bool, store: Store, o: Command)
    requires OidsAreFields(oidOk) && Readable(store) && CommandOk(o)
    ensures RevokesLate(oidOk, unique, store, o) ==> RevokesUnsoundly(oidOk, unique, store, o)
    ensures HaveStatus(RowsIn(store)) && HasExpiry(o) && RevokesUnsoundly(oidOk, unique, store, o)
        ==> RevokesLate(oidOk, unique, store, o)
  {
    var s := BeforeRevoke(oidOk, unique, store, o);
    BeforeRevokeKeeps(oidOk, unique, store, o);
    if HaveStatus(RowsIn(store)) { StatusStays(RowsIn(store), RowsIn(s.store)); }
  }

  // ---------- all invocations ----------

  predicate AtTimes(cmds: seq<Command>) { forall i :: 0 <= i < |cmds| ==> IsTime(cmds[i].now) }

  ghost predicate AllOk(cmds: seq<Command>)
    ensures AllOk(cmds) ==> AtTimes(cmds)
  {
    forall i :: 0 <= i < |cmds| ==> CommandOk(cmds[i])
  }

  function RunAll(oidOk: OidFn, unique: bool, store: Store, cmds: seq<Command>): Store
    requires AtTimes(cmds)
  {
    if cmds == [] then store
    else Invoke(oidOk, unique, RunAll(oidOk, unique, store, cmds[..|cmds| - 1]), cmds[|cmds| - 1])
  }

  /** Over any number of invocations, at any times: the file can be read, no row is lost,
      moved, or brought back from revoked, and no serial comes back. */
  lemma {:induction false} RunsKeep(oidOk: OidFn, unique: bool, store: Store, cmds: seq<Command>)
    requires OidsAreFields(oidOk) && Readable(store) && AllOk(cmds)
    ensures Follows(store, RunAll(oidOk, unique, store, cmds))
  {
    if cmds == [] {
      FollowsItself(store);
    } else {
      var n := |cmds| - 1;
      RunsKeep(oidOk, unique, store, cmds[..n]);
      var mid := RunAll(oidOk, unique, store, cmds[..n]);
      InvocationKeeps(oidOk, unique, mid, cmds[n]);
      FollowsTransitive(store, mid, Invoke(oidOk, unique, mid, cmds[n]));
    }
  }

  /** A revoked row stays as it is for ever. */
  lemma {:induction false} RevokedForEver(oidOk: OidFn, unique: bool, store: Store, cmds: seq<Command>, k: nat)
    requires OidsAreFields(oidOk) && Readable(store) && AllOk(cmds)
    requires k < |RowsIn(store)| && IsRevoked(RowsIn(store)[k])
    ensures var rows := RowsIn(RunAll(oidOk, unique, store, cmds)); k < |rows| && rows[k] == RowsIn(store)[k]
  {
    RunsKeep(oidOk, unique, store, cmds);
    assert Evolves(RowsIn(store)[k], RowsIn(RunAll(oidOk, unique, store, cmds))[k]);
  }

  /** A file that is not accepted is never written again. */
  lemma {:induction false} RefusedForEver(oidOk: OidFn, unique: bool, store: Store, cmds: seq<Command>)
    requires AtTimes(cmds)
    requires !Readable(store) || !Accepted(oidOk, unique, RowsIn(store))
    ensures RunAll(oidOk, unique, store, cmds) == store
  {
    if cmds != [] { RefusedForEver(oidOk, unique, store, cmds[..|cmds| - 1]); }
  }

  /** Some invocation of a run revokes unsoundly. */
  predicate AnyUnsound(oidOk: OidFn, unique: bool, store: Store, cmds: seq<Command>)
    requires AtTimes(cmds)
  {
    cmds != [] &&
    var n := |cmds| - 1;
    || AnyUnsound(oidOk, unique, store, cmds[..n])
    || RevokesUnsoundly(oidOk, unique, RunAll(oidOk, unique, store, cmds[..n]), cmds[n])
  }

  /** The exact condition for whole runs: the file is accepted at the end if and only if it was
      at the beginning, and no invocation has revoked unsoundly. */
  lemma {:induction false} RunsStayAccepted(oidOk: OidFn, unique: bool, store: Store, cmds: seq<Command>)
    requires OidsAreFields(oidOk) && Readable(store) && AllOk(cmds)
    ensures Accepted(oidOk, unique, RowsIn(RunAll(oidOk, unique, store, cmds)))
       <==> Accepted(oidOk, unique, RowsIn(store)) && !AnyUnsound(oidOk, unique, store, cmds)
  {
    if cmds != [] {
      var n := |cmds| - 1;
      RunsKeep(oidOk, unique, store, cmds[..n]);
      RunsStayAccepted(oidOk, unique, store, cmds[..n]);
      AcceptedUnlessUnsound(oidOk, unique, RunAll(oidOk, unique, store, cmds[..n]), cmds[n]);
    }
  }

  /** An unsound revocation locks the program out of its own database, whatever else the
      invocation did: no later invocation changes a file. */
  lemma {:induction false} UnsoundRevocationLocksOut(oidOk: OidFn, unique: bool, store: Store, o: Command,
                                                     cmds: seq<Command>)
    requires OidsAreFields(oidOk) && Readable(store) && CommandOk(o)
    requires RevokesUnsoundly(oidOk, unique, store, o) && AtTimes(cmds)
    ensures var after := Invoke(oidOk, unique, store, o);
            && after != store && !Accepted(oidOk, unique, RowsIn(after))
            && RunAll(oidOk, unique, after, cmds) == after
  {
    var after := Invoke(oidOk, unique, store, o);
    AcceptedUnlessUnsound(oidOk, unique, store, o);
    if !Accepted(oidOk, unique, RowsIn(store)) { RefusedOnce(oidOk, unique, store, o); }
    RefusedForEver(oidOk, unique, after, cmds);
  }

  // ---------- files in which every row has a status ----------

  /** There the year alone decides about one invocation, */
  lemma HealthyUnlessLate(oidOk: OidFn, unique: bool, store: Store, o: Command)
    requires OidsAreFields(oidOk) && Healthy(oidOk, unique, store) && CommandOk(o) && HasExpiry(o)
    ensures Healthy(oidOk, unique, Invoke(oidOk, unique, store, o)) <==> !RevokesLate(oidOk, unique, store, o)
  {
    UnsoundIfLate(oidOk, unique, store, o);
    AcceptedUnlessUnsound(oidOk, unique, store, o);
    InvocationKeeps(oidOk, unique, store, o);
    StatusStays(RowsIn(store), RowsIn(Invoke(oidOk, unique, store, o)));
  }

  /** and a late revocation locks out in any file. */
  lemma {:induction false} LateRevocationLocksOut(oidOk: OidFn, unique: bool, store: Store, o: Command,
                                                  cmds: seq<Command>)
    requires OidsAreFields(oidOk) && Readable(store) && CommandOk(o)
    requires RevokesLate(oidOk, unique, store, o) && AtTimes(cmds)
    ensures var after := Invoke(oidOk, unique, store, o);
            && after != store && !Accepted(oidOk, unique, RowsIn(after))
            && RunAll(oidOk, unique, after, cmds) == after
  {
    UnsoundIfLate(oidOk, unique, store, o);
    UnsoundRevocationLocksOut(oidOk, unique, store, o, cmds);
  }

  /** Some invocation of a run revokes late. */
  predicate AnyLate(oidOk: OidFn, unique: bool, store: Store, cmds: seq<Command>)
    requires AtTimes(cmds)
  {
    cmds != [] &&
    var n := |cmds| - 1;
    || AnyLate(oidOk, unique, store, cmds[..n])
    || RevokesLate(oidOk, unique, RunAll(oidOk, unique, store, cmds[..n]), cmds[n])
  }

  /** If every row has a status and every certificate that is loaded an expiry date, the file
      stays accepted exactly as long as no row is revoked outside the years 1950 to 2049. */
  lemma {:induction false} RunsStayHealthy(oidOk: OidFn, unique: bool, store: Store, cmds: seq<Command>)
    requires OidsAreFields(oidOk) && Healthy(oidOk, unique, store) && AllOk(cmds)
    requires forall i :: 0 <= i < |cmds| ==> HasExpiry(cmds[i])
    ensures AnyUnsound(oidOk, unique, store, cmds) <==> AnyLate(oidOk, unique, store, cmds)
    ensures Healthy(oidOk, unique, RunAll(oidOk, unique, store, cmds)) <==> !AnyLate(oidOk, unique, store, cmds)
  {
    RunsStayAccepted(oidOk, unique, store, cmds);
    RunsKeep(oidOk, unique, store, cmds);
    StatusStays(RowsIn(store), RowsIn(RunAll(oidOk, unique, store, cmds)));
    if cmds != [] {
      var n := |cmds| - 1;
      RunsStayHealthy(oidOk, unique, store, cmds[..n]);
      var mid := RunAll(oidOk, unique, store, cmds[..n]);
      RunsKeep(oidOk, unique, store, cmds[..n]);
      StatusStays(RowsIn(store), RowsIn(mid));
      UnsoundIfLate(oidOk, unique, mid, cmds[n]);
    }
  }

  // ---------- lock-outs that happen ----------

  /** An invocation that only revokes, or with RevValid only inserts, with all savings done. */
  function JustRevoke(now: Tm, c: Cert, revType: RevType): Command {
    Command(now, _ => false, false, None, false, Some(RevokeJob(Some(c), revType, [])), true, BothSaved, true)
  }

  lemma FirstRevocation(oidOk: OidFn, now: CString, db: Db, c: Cert)
    requires db == Indexed(true, [])
    ensures Revoke(oidOk, now, db, c, RevNone, []).0
  {
    var d := Insert(db, NewRow(c)).value;
    NewRowCanBeRevoked(oidOk, d, c, 0, now);
  }

  /** The first revocation ever, of certificate number 1, on the first day of the year 2050. */
  lemma {:induction false} LockOutHappens(oidOk: OidFn)
    ensures var now := Tm(2050, 1, 1, 0, 0, 0);
            var o := JustRevoke(now, Cert(1, [], TimeText(now)), RevNone);
            && Healthy(oidOk, true, Store([], 1, [])) && CommandOk(o) && HasExpiry(o)
            && RevokesLate(oidOk, true, Store([], 1, []), o) && RevokesUnsoundly(oidOk, true, Store([], 1, []), o)
  {
    var now := Tm(2050, 1, 1, 0, 0, 0);
    TimeTextIsTime(now);
    TimeIsField(TimeText(now));
    FirstRevocation(oidOk, TimeText(now), Indexed(true, []), Cert(1, [], TimeText(now)));
  }

  /** A `-valid` of a certificate whose expiry date, "000000000000Z", is in no month. */
  lemma {:induction false} MalformedExpiryLocksOut(oidOk: OidFn, now: Tm)
    requires IsTime(now)
    ensures var o := JustRevoke(now, Cert(1, [], Ascii("000000000000Z")), RevValid);
            && Healthy(oidOk, true, Store([], 1, [])) && CommandOk(o)
            && !RevokesLate(oidOk, true, Store([], 1, []), o) && RevokesUnsoundly(oidOk, true, Store([], 1, []), o)
  {
    var exp := Ascii("000000000000Z");
    assert exp[2] == 0x30 && exp[3] == 0x30 && exp[12] == 0x5A;
    assert !UtcOk(exp) && FieldOk(exp);
  }

  /** The revocation of a row with an empty status, in any year. */
  lemma {:induction false} EmptyStatusLocksOut(oidOk: OidFn, now: Tm)
    requires IsTime(now) && HasUtcForm(now)
    ensures var rows := [Row([], TimeText(now), [], SerialText(1), [], SerialText(1))];
            var store := Store(FileOf(rows), 2, []);
            var o := JustRevoke(now, Cert(1, [], TimeText(now)), RevNone);
            && Readable(store) && RowsIn(store) == rows && Accepted(oidOk, true, rows) && CommandOk(o) && HasExpiry(o)
            && !RevokesLate(oidOk, true, store, o) && RevokesUnsoundly(oidOk, true, store, o)
  {
    var r := Row([], TimeText(now), [], SerialText(1), [], SerialText(1));
    TimeTextIsTime(now);
    TimeIsField(TimeText(now));
    SerialIsField(1);
    SerialTextDenotes(1);
    CleanByField(r);
    Saved([r]);
    FindSerialUnique([r], SerialText(1), 0);
    assert TimeText(now) + ExtraText(NoExtra) == TimeText(now);
  }

  // ---------- the two readers ----------

  /** Whatever the runs do, they do not break the agreement of the revocation list and the
      OCSP responder: at the end they agree about everything exactly if every revoked row is
      spoken for, and they do so if they did at the beginning. */
  lemma {:induction false} ReadersAgreeAfterRuns(oidOk: OidFn, unique: bool, store: Store, cmds: seq<Command>)
    requires OidsAreFields(oidOk) && Readable(store) && AllOk(cmds)
    requires Accepted(oidOk, unique, RowsIn(RunAll(oidOk, unique, store, cmds)))
    ensures var rows := RowsIn(RunAll(oidOk, unique, store, cmds));
            && ((forall e :: CrlOcsp.Agree(oidOk, rows, e)) <==> CrlOcsp.AllSpokenFor(oidOk, rows))
            && (CrlOcsp.AllSpokenFor(oidOk, RowsIn(store)) ==> CrlOcsp.AllSpokenFor(oidOk, rows))
  {
    var after := RunAll(oidOk, unique, store, cmds);
    CrlOcsp.ReadersAgree(oidOk, RowsIn(after));
    RunsKeep(oidOk, unique, store, cmds);
    if !Accepted(oidOk, unique, RowsIn(store)) {
      RefusedForEver(oidOk, unique, store, cmds);
    } else if CrlOcsp.AllSpokenFor(oidOk, RowsIn(store)) {
      CrlOcsp.SpokenForStays(oidOk, RowsIn(store), RowsIn(after));
    }
  }
}

/** The serial file over whole runs: when serials are lost, when one is given to two
    certificates, and when the program can issue no more. */
module Serials {
  import opened Asn1Time
  import opened Bytes
  import opened CleanRows
  import opened Database
  import opened Invocation
  import opened Issue
  import opened Names
  import opened RevInfo
  import opened Runs
  import opened SerialHex
  import opened TxtDb

  /** A row is found under this number. */
  predicate Holds(rows: seq<Row>, n: int) { FindSerial(rows, SerialText(n)).Some? }

  /** The next serial is in the database already. */
  predicate SerialTaken(store: Store) { Holds(RowsIn(store), store.serial) }

  lemma HoldsKey(rows: seq<Row>, n: int)
    ensures Holds(rows, n) <==> exists i :: 0 <= i < |rows| && Key(rows[i]) == StripZeros(SerialText(n))
  {
  }

  lemma StillHolds(a: seq<Row>, b: seq<Row>, n: int)
    requires Grows(a, b)
    ensures Holds(a, n) ==> Holds(b, n)
    ensures |a| == |b| ==> (Holds(a, n) <==> Holds(b, n))
  {
    HoldsKey(a, n);
    HoldsKey(b, n);
    forall i | 0 <= i < |a|
      ensures Key(a[i]) == Key(b[i])
    {
      assert Evolves(a[i], b[i]);
    }
    if Holds(a, n) {
      var i :| 0 <= i < |a| && Key(a[i]) == StripZeros(SerialText(n));
      assert Key(b[i]) == StripZeros(SerialText(n));
    }
    if |a| == |b| && Holds(b, n) {
      var i :| 0 <= i < |b| && Key(b[i]) == StripZeros(SerialText(n));
      assert Key(a[i]) == StripZeros(SerialText(n));
    }
  }

  // ---------- no more certificates ----------

  /** With the next serial taken, every request clashes, or is given up or declined before. */
  lemma {:induction false} NothingIssued(job: IssueJob, reqs: seq<Request>, serial: int, db: Db)
    requires Holds(db.rows, serial)
    ensures var b := IssueAll(job.cfg, reqs, serial, db); b.certs == [] && b.db == db && b.serial == serial
  {
    if reqs != [] { NothingIssued(job, reqs[..|reqs| - 1], serial, db); }
  }

  lemma TakenStopsIssuing(oidOk: OidFn, unique: bool, o: Command, s: Stage)
    requires Working(oidOk, unique, s) && SerialTaken(s.store)
    ensures IssueJobs(o, s).store == s.store
  {
    if s.go && o.issue.Some? { NothingIssued(o.issue.value, o.issue.value.reqs, s.store.serial, s.db); }
  }

  /** An invocation finds the next serial taken: it issues nothing, and leaves it taken. */
  lemma TakenStays(oidOk: OidFn, unique: bool, store: Store, o: Command)
    requires OidsAreFields(oidOk) && Readable(store) && CommandOk(o) && SerialTaken(store)
    ensures var after := Invoke(oidOk, unique, store, o);
            after.serial == store.serial && after.written == store.written && SerialTaken(after)
  {
    LoadWorks(oidOk, unique, store);
    var s := Update(o, Load(oidOk, unique, store));
    UpdateKeeps(oidOk, unique, o, Load(oidOk, unique, store));
    StillHolds(RowsIn(store), RowsIn(s.store), store.serial);
    TakenStopsIssuing(oidOk, unique, o, s);
    BeforeRevokeKeeps(oidOk, unique, store, o);
    RevokeKeeps(oidOk, unique, o, IssueJobs(o, s));
    InvocationKeeps(oidOk, unique, store, o);
    StillHolds(RowsIn(store), RowsIn(Invoke(oidOk, unique, store, o)), store.serial);
  }

  /** Once the next serial is in the database, no certificate is ever issued again. */
  lemma {:induction false} TakenForEver(oidOk: OidFn, unique: bool, store: Store, cmds: seq<Command>)
    requires OidsAreFields(oidOk) && Readable(store) && AllOk(cmds) && SerialTaken(store)
    ensures var after := RunAll(oidOk, unique, store, cmds);
            after.serial == store.serial && after.written == store.written && SerialTaken(after)
  {
    if cmds != [] {
      var n := |cmds| - 1;
      TakenForEver(oidOk, unique, store, cmds[..n]);
      RunsKeep(oidOk, unique, store, cmds[..n]);
      TakenStays(oidOk, unique, RunAll(oidOk, unique, store, cmds[..n]), cmds[n]);
    }
  }

  // ---------- how that comes about ----------

  /** The invocation saves a revocation, or with RevValid an insertion, of this number. */
  predicate RevokesNumber(oidOk: OidFn, unique: bool, store: Store, o: Command, n: int)
    requires IsTime(o.now)
  {
    Revokes(oidOk, o, BeforeRevoke(oidOk, unique, store, o)) && o.revoke.value.cert.value.serial == n
  }

  lemma HoldsOneMore(rows: seq<Row>, r: Row, n: int)
    ensures Holds(rows + [r], n) <==> Holds(rows, n) || Key(r) == StripZeros(SerialText(n))
  {
    assert (rows + [r])[..|rows|] == rows;
  }

  lemma LastNewRow(certs: seq<Cert>)
    requires certs != []
    ensures NewRows(certs) == NewRows(certs[..|certs| - 1]) + [NewRow(certs[|certs| - 1])]
  {
  }

  lemma {:induction false} HoldsNewRows(rows: seq<Row>, certs: seq<Cert>, n: int)
    requires forall i :: 0 <= i < |certs| ==> certs[i].serial != n
    ensures Holds(rows + NewRows(certs), n) <==> Holds(rows, n)
  {
    if certs == [] {
      assert rows + NewRows(certs) == rows;
    } else {
      var m := |certs| - 1;
      HoldsNewRows(rows, certs[..m], n);
      SerialTextKeys(certs[m].serial, n);
      HoldsOneMore(rows + NewRows(certs[..m]), NewRow(certs[m]), n);
      LastNewRow(certs);
      assert rows + (NewRows(certs[..m]) + [NewRow(certs[m])]) == rows + NewRows(certs[..m]) + [NewRow(certs[m])];
    }
  }

  lemma BatchBelow(o: Command, store: Store, b: Batch, n: int)
    requires o.issue.Some? && Conserved(b, store.serial, Db(RowsIn(store), b.db.unique, {}))
    requires ReadDb(FileOf(b.db.rows)) == Some(b.db.rows) && n >= AfterBatch(o, store, b).store.serial
    ensures Holds(RowsIn(AfterBatch(o, store, b).store), n) <==> Holds(RowsIn(store), n)
  {
    if AfterBatch(o, store, b).store.file != store.file {
      HoldsNewRows(RowsIn(store), b.certs, n);
    }
  }

  /** Issuing adds only numbers below the next serial. */
  lemma IssuedBelow(oidOk: OidFn, unique: bool, o: Command, s: Stage, n: int)
    requires Working(oidOk, unique, s) && (o.issue.Some? ==> IssueOk(o.issue.value))
    requires n >= IssueJobs(o, s).store.serial
    ensures Holds(RowsIn(IssueJobs(o, s).store), n) <==> Holds(RowsIn(s.store), n)
  {
    if s.go && o.issue.Some? {
      var job := o.issue.value;
      var b := IssueAll(job.cfg, job.reqs, s.store.serial, s.db);
      assert ReadDb(FileOf(b.db.rows)) == Some(b.db.rows) by { IssuedIsSaved(oidOk, job, s.db, s.store); }
      SerialsAreConserved(job.cfg, job.reqs, s.store.serial, s.db);
      BatchBelow(o, s.store, b, n);
    }
  }

  lemma RevokedNumber(oidOk: OidFn, now: CString, db: Db, c: Cert, revType: RevType, arg: CString, n: int)
    requires IsIndexed(db) && SerialsUnique(db.rows) && Revoke(oidOk, now, db, c, revType, arg).0
    ensures Holds(Revoke(oidOk, now, db, c, revType, arg).1.rows, n) <==> Holds(db.rows, n) || c.serial == n
  {
    RevokeResult(oidOk, now, db, c, revType, arg);
    var rows, at := Revoke(oidOk, now, db, c, revType, arg).1.rows, Place(db, c);
    SerialTextKeys(c.serial, n);
    HoldsKey(db.rows, n);
    HoldsKey(rows, n);
    assert Key(rows[at]) == StripZeros(SerialText(c.serial));
    forall i | 0 <= i < |db.rows|
      ensures Key(rows[i]) == Key(db.rows[i])
    {
    }
    if Holds(db.rows, n) {
      var i :| 0 <= i < |db.rows| && Key(db.rows[i]) == StripZeros(SerialText(n));
      assert Key(rows[i]) == StripZeros(SerialText(n));
    }
  }

  /** From the next serial on, an invocation adds exactly the number that it revokes. */
  lemma HoldsAfter(oidOk: OidFn, unique: bool, store: Store, o: Command, n: int)
    requires OidsAreFields(oidOk) && Readable(store) && CommandOk(o)
    requires n >= Invoke(oidOk, unique, store, o).serial
    ensures Holds(RowsIn(Invoke(oidOk, unique, store, o)), n)
       <==> Holds(RowsIn(store), n) || RevokesNumber(oidOk, unique, store, o, n)
  {
    LoadWorks(oidOk, unique, store);
    var s0 := Load(oidOk, unique, store);
    var s1 := Update(o, s0);
    var s2 := IssueJobs(o, s1);
    UpdateKeeps(oidOk, unique, o, s0);
    StillHolds(RowsIn(store), RowsIn(s1.store), n);
    BeforeRevokeKeeps(oidOk, unique, store, o);
    RevokeKeeps(oidOk, unique, o, s2);
    IssuedBelow(oidOk, unique, o, s1, n);
    RevokeStores(oidOk, o, s2);
    if Revokes(oidOk, o, s2) {
      var job := o.revoke.value;
      RevokedNumber(oidOk, TimeText(o.now), s2.db, job.cert.value, job.revType, job.arg, n);
      RevokedIsSaved(oidOk, o.now, s2.db, job.cert.value, job.revType, job.arg, s2.store);
    }
  }

  predicate AnyRevokesNumber(oidOk: OidFn, unique: bool, store: Store, cmds: seq<Command>, n: int)
    requires AtTimes(cmds)
  {
    cmds != [] &&
    var m := |cmds| - 1;
    || AnyRevokesNumber(oidOk, unique, store, cmds[..m], n)
    || RevokesNumber(oidOk, unique, RunAll(oidOk, unique, store, cmds[..m]), cmds[m], n)
  }

  lemma {:induction false} HoldsAfterRuns(oidOk: OidFn, unique: bool, store: Store, cmds: seq<Command>, n: int)
    requires OidsAreFields(oidOk) && Readable(store) && AllOk(cmds)
    requires n >= RunAll(oidOk, unique, store, cmds).serial
    ensures Holds(RowsIn(RunAll(oidOk, unique, store, cmds)), n)
       <==> Holds(RowsIn(store), n) || AnyRevokesNumber(oidOk, unique, store, cmds, n)
  {
    if cmds != [] {
      var m := |cmds| - 1;
      var mid := RunAll(oidOk, unique, store, cmds[..m]);
      RunsKeep(oidOk, unique, store, cmds[..m]);
      InvocationKeeps(oidOk, unique, mid, cmds[m]);
      HoldsAfterRuns(oidOk, unique, store, cmds[..m], n);
      HoldsAfter(oidOk, unique, mid, cmds[m], n);
    }
  }

  /** Exactly when the next serial is taken at the end of a run: its number was in the database
      at the beginning, or the run has revoked or inserted a certificate with that number. */
  lemma TakenByRevocation(oidOk: OidFn, unique: bool, store: Store, cmds: seq<Command>)
    requires OidsAreFields(oidOk) && Readable(store) && AllOk(cmds)
    ensures var after := RunAll(oidOk, unique, store, cmds);
            SerialTaken(after)
            <==> Holds(RowsIn(store), after.serial) || AnyRevokesNumber(oidOk, unique, store, cmds, after.serial)
  {
    HoldsAfterRuns(oidOk, unique, store, cmds, RunAll(oidOk, unique, store, cmds).serial);
  }

  lemma FirstInsertion(oidOk: OidFn, now: Tm)
    requires IsTime(now)
    ensures var store, o := Store([], 1, []), JustRevoke(now, Cert(1, [], TimeText(now)), RevValid);
            Healthy(oidOk, true, store) && !SerialTaken(store) && RevokesNumber(oidOk, true, store, o, 1)
  {
  }

  /** It does happen, and the file stays accepted: a `-valid` of certificate number 1 in an
      empty database. */
  lemma {:induction false} TakenHappens(oidOk: OidFn, now: Tm)
    requires IsTime(now) && OidsAreFields(oidOk)
    ensures var store, o := Store([], 1, []), JustRevoke(now, Cert(1, [], TimeText(now)), RevValid);
            && CommandOk(o) && Healthy(oidOk, true, store) && !SerialTaken(store)
            && var after := Invoke(oidOk, true, store, o); Healthy(oidOk, true, after) && SerialTaken(after)
  {
    var store, o := Store([], 1, []), JustRevoke(now, Cert(1, [], TimeText(now)), RevValid);
    TimeTextIsTime(now);
    TimeIsField(TimeText(now));
    FirstInsertion(oidOk, now);
    HealthyUnlessLate(oidOk, true, store, o);
    RevokeStores(oidOk, o, BeforeRevoke(oidOk, true, store, o));
    HoldsAfter(oidOk, true, store, o, 1);
  }

  // ---------- one serial, two certificates ----------

  /** An invocation stops with certificates written and the serial file as it was. */
  predicate WritesLoose(o: Command, s: Stage) {
    && s.go && o.issue.Some? && o.issue.value.commit && o.issueSaved.NothingSaved? && o.issueSaved.written > 0
    && var b := IssueAll(o.issue.value.cfg, o.issue.value.reqs, s.store.serial, s.db);
       b.ok && b.certs != []
  }

  /** The stage at which an invocation comes to its requests. */
  function BeforeIssue(oidOk: OidFn, unique: bool, store: Store, o: Command): Stage {
    Update(o, Load(oidOk, unique, store))
  }

  predicate IsLoose(oidOk: OidFn, unique: bool, store: Store, o: Command) {
    WritesLoose(o, BeforeIssue(oidOk, unique, store, o))
  }

  /** These certificates carry consecutive serials from `serial` on. */
  predicate Consecutive(certs: seq<Cert>, serial: int) {
    forall i :: 0 <= i < |certs| ==> certs[i].serial == serial + i
  }

  /** Certificates are written from the serial on, and the serial moves behind them unless the
      invocation stops loosely. */
  predicate WritesOn(a: Store, b: Store, loose: bool) {
    && a.written <= b.written && Consecutive(b.written[|a.written|..], a.serial)
    && (if loose then b.serial == a.serial && b.written != a.written
        else b.serial - a.serial == |b.written| - |a.written|)
  }

  lemma BatchWrites(o: Command, store: Store, b: Batch)
    requires o.issue.Some? && Consecutive(b.certs, store.serial) && b.serial == store.serial + |b.certs|
    ensures WritesOn(store, AfterBatch(o, store, b).store,
                     b.ok && b.certs != [] && o.issue.value.commit && o.issueSaved.NothingSaved?
                     && o.issueSaved.written > 0)
  {
    var t := AfterBatch(o, store, b).store;
    assert exists k: nat :: k <= |b.certs| && t.written == store.written + b.certs[..k] by {
      assert store.written + b.certs[..0] == store.written && b.certs[..|b.certs|] == b.certs;
    }
    var k: nat :| k <= |b.certs| && t.written == store.written + b.certs[..k];
    assert t.written[|store.written|..] == b.certs[..k];
  }

  /** What an invocation writes, and where it leaves the serial. */
  lemma WritesConsecutive(oidOk: OidFn, unique: bool, store: Store, o: Command)
    requires IsTime(o.now)
    ensures WritesOn(store, Invoke(oidOk, unique, store, o), IsLoose(oidOk, unique, store, o))
  {
    var s := BeforeIssue(oidOk, unique, store, o);
    assert s.store.serial == store.serial && s.store.written == store.written;
    if s.go && o.issue.Some? {
      var job := o.issue.value;
      SerialsAreConserved(job.cfg, job.reqs, s.store.serial, s.db);
      BatchWrites(o, s.store, IssueAll(job.cfg, job.reqs, s.store.serial, s.db));
    }
    RevokeWritesNone(oidOk, o, IssueJobs(o, s));
  }

  lemma RevokeWritesNone(oidOk: OidFn, o: Command, s: Stage)
    requires IsTime(o.now)
    ensures var t := RevokeJobs(oidOk, o, s).store; t.serial == s.store.serial && t.written == s.store.written
  {
  }

  predicate AnyLoose(oidOk: OidFn, unique: bool, store: Store, cmds: seq<Command>)
    requires AtTimes(cmds)
  {
    cmds != [] &&
    var n := |cmds| - 1;
    || AnyLoose(oidOk, unique, store, cmds[..n])
    || IsLoose(oidOk, unique, RunAll(oidOk, unique, store, cmds[..n]), cmds[n])
  }

  /** Over any number of invocations, the serial has advanced by the number of certificates on
      disk, if and only if none has stopped loosely; otherwise there are more certificates. */
  lemma {:induction false} SerialsCountCertificates(oidOk: OidFn, unique: bool, store: Store, cmds: seq<Command>)
    requires AtTimes(cmds)
    ensures var after := RunAll(oidOk, unique, store, cmds);
            && after.serial - store.serial <= |after.written| - |store.written|
            && (after.serial - store.serial == |after.written| - |store.written|
                <==> !AnyLoose(oidOk, unique, store, cmds))
  {
    if cmds != [] {
      var n := |cmds| - 1;
      SerialsCountCertificates(oidOk, unique, store, cmds[..n]);
      WritesConsecutive(oidOk, unique, RunAll(oidOk, unique, store, cmds[..n]), cmds[n]);
    }
  }

  /** Some invocation writes certificates after one has stopped loosely. */
  predicate WritesAfterLoose(oidOk: OidFn, unique: bool, store: Store, cmds: seq<Command>)
    requires AtTimes(cmds)
  {
    cmds != [] &&
    var n := |cmds| - 1;
    || WritesAfterLoose(oidOk, unique, store, cmds[..n])
    || (AnyLoose(oidOk, unique, store, cmds[..n])
        && RunAll(oidOk, unique, store, cmds).written != RunAll(oidOk, unique, store, cmds[..n]).written)
  }

  predicate SerialsDiffer(certs: seq<Cert>) {
    forall i, j :: 0 <= i < j < |certs| ==> certs[i].serial != certs[j].serial
  }

  predicate AllBelow(certs: seq<Cert>, serial: int) {
    forall i :: 0 <= i < |certs| ==> certs[i].serial < serial
  }

  predicate IsAmong(certs: seq<Cert>, serial: int) {
    exists i :: 0 <= i < |certs| && certs[i].serial == serial
  }

  lemma DifferTogether(a: seq<Cert>, more: seq<Cert>, serial: int)
    requires Consecutive(more, serial)
    ensures !SerialsDiffer(a) || (IsAmong(a, serial) && more != []) ==> !SerialsDiffer(a + more)
    ensures SerialsDiffer(a) && AllBelow(a, serial) ==>
              SerialsDiffer(a + more) && AllBelow(a + more, serial + |more|)
    ensures more != [] ==> IsAmong(a + more, serial)
  {
    var all := a + more;
    assert forall i :: 0 <= i < |a| ==> all[i] == a[i];
    if more != [] {
      assert all[|a|].serial == serial;
    }
  }

  /** What is known of the written certificates behind a run. */
  predicate Accounted(store: Store, loose: bool, reused: bool) {
    && (reused <==> !SerialsDiffer(store.written))
    && (!loose ==> AllBelow(store.written, store.serial))
    && (loose && !reused ==> IsAmong(store.written, store.serial))
  }

  lemma AccountedNext(a: Store, b: Store, more: seq<Cert>, loose: bool, reused: bool, isLoose: bool)
    requires Accounted(a, loose, reused) && (reused ==> loose)
    requires b.written == a.written + more && Consecutive(more, a.serial)
    requires if isLoose then b.serial == a.serial && more != [] else b.serial == a.serial + |more|
    ensures Accounted(b, loose || isLoose, reused || (loose && more != []))
  {
    DifferTogether(a.written, more, a.serial);
    if more == [] { assert b.written == a.written; }
  }

  lemma {:induction false} RunsAreAccounted(oidOk: OidFn, unique: bool, store: Store, cmds: seq<Command>)
    requires AtTimes(cmds) && SerialsDiffer(store.written) && AllBelow(store.written, store.serial)
    ensures WritesAfterLoose(oidOk, unique, store, cmds) ==> AnyLoose(oidOk, unique, store, cmds)
    ensures Accounted(RunAll(oidOk, unique, store, cmds), AnyLoose(oidOk, unique, store, cmds),
                      WritesAfterLoose(oidOk, unique, store, cmds))
  {
    if cmds != [] {
      var n := |cmds| - 1;
      var a, b := RunAll(oidOk, unique, store, cmds[..n]), RunAll(oidOk, unique, store, cmds);
      RunsAreAccounted(oidOk, unique, store, cmds[..n]);
      WritesConsecutive(oidOk, unique, a, cmds[n]);
      AccountedNext(a, b, b.written[|a.written|..], AnyLoose(oidOk, unique, store, cmds[..n]),
                    WritesAfterLoose(oidOk, unique, store, cmds[..n]), IsLoose(oidOk, unique, a, cmds[n]));
    }
  }

  /** Over any number of invocations, all certificates on disk have different serials, if and
      only if nothing has been written after an invocation that had written certificates and
      stopped before the serial file was in place. */
  lemma SerialsDifferUnlessLoose(oidOk: OidFn, unique: bool, store: Store, cmds: seq<Command>)
    requires AtTimes(cmds) && SerialsDiffer(store.written) && AllBelow(store.written, store.serial)
    ensures SerialsDiffer(RunAll(oidOk, unique, store, cmds).written)
       <==> !WritesAfterLoose(oidOk, unique, store, cmds)
  {
    RunsAreAccounted(oidOk, unique, store, cmds);
  }

  // ---------- both happen ----------

  /** An invocation with one request that asks for nothing, and meets an empty policy. */
  function IssueOne(now: Tm, saving: Saving): Command
    requires IsTime(now)
  {
    var cfg := Config(_ => UNDEF, [], [], false, false, true, false, _ => []);
    var req := Request(Verified, [], true, TimeText(now), true, true);
    Command(now, _ => false, false, Some(IssueJob(cfg, [req], true)), false, None, true, saving, true)
  }

  lemma OneIsIssued(now: Tm, saving: Saving, store: Store)
    requires IsTime(now) && store.file == []
    ensures CommandOk(IssueOne(now, saving))
    ensures var job := IssueOne(now, saving).issue.value;
            var b := IssueAll(job.cfg, job.reqs, store.serial, Indexed(true, []));
            b.ok && |b.certs| == 1 && b.serial == store.serial + 1
  {
    var job := IssueOne(now, saving).issue.value;
    var db, req := Indexed(true, []), job.reqs[0];
    TimeTextIsTime(now);
    assert NameOf(job.cfg, req) == [];
    assert !Clashes(db, CertOf(job.cfg, req, store.serial));
    assert Outcome(job.cfg, req, store.serial, db) == 1;
    assert job.reqs == [] + [req];
    IssueMore(job.cfg, [], req, store.serial, db);
  }

  /** The first certificate ever is issued and the database is not put in place. */
  lemma {:induction false} LossHappens(oidOk: OidFn, now: Tm)
    requires IsTime(now)
    ensures var store, o := Store([], 1, []), IssueOne(now, SerialSaved);
            && CommandOk(o) && LosesSerials(o, BeforeIssue(oidOk, true, store, o))
            && var after := Invoke(oidOk, true, store, o); after.serial == 2 && RowsIn(after) == RowsIn(store) == []
  {
    OneIsIssued(now, SerialSaved, Store([], 1, []));
  }

  lemma OneIsWritten(oidOk: OidFn, store: Store, now: Tm, saving: Saving)
    requires IsTime(now) && store.file == [] && (saving == NothingSaved(1) || saving == BothSaved)
    ensures var o := IssueOne(now, saving);
            var after := Invoke(oidOk, true, store, o);
            && |after.written| == |store.written| + 1 && store.written <= after.written
            && after.written[|store.written|].serial == store.serial
            && (saving.NothingSaved? ==>
                  IsLoose(oidOk, true, store, o) && after.file == [] && after.serial == store.serial)
  {
    var o := IssueOne(now, saving);
    var after := Invoke(oidOk, true, store, o);
    OneIsIssued(now, saving, store);
    WritesConsecutive(oidOk, true, store, o);
    assert after.written[|store.written|..][0] == after.written[|store.written|];
  }

  /** The first certificate ever is written and nothing is put in place: the next run gives
      its serial to another one. */
  lemma {:induction false} ReuseHappens(oidOk: OidFn, now: Tm)
    requires IsTime(now)
    ensures var store, o, p := Store([], 1, []), IssueOne(now, NothingSaved(1)), IssueOne(now, BothSaved);
            && CommandOk(o) && CommandOk(p) && IsLoose(oidOk, true, store, o)
            && var certs := RunAll(oidOk, true, store, [o, p]).written;
               |certs| == 2 && certs[0].serial == certs[1].serial == 1
  {
    var store, o, p := Store([], 1, []), IssueOne(now, NothingSaved(1)), IssueOne(now, BothSaved);
    var mid := Invoke(oidOk, true, store, o);
    OneIsIssued(now, NothingSaved(1), store);
    OneIsWritten(oidOk, store, now, NothingSaved(1));
    OneIsIssued(now, BothSaved, mid);
    OneIsWritten(oidOk, mid, now, BothSaved);
    assert [o, p][..1] == [o] && [o][..0] == [];
    assert RunAll(oidOk, true, store, [o]) == mid;
  }
}

/** What one invocation leaves in its files: every row, the serial and the certificates, for all
    options and all savings that may fail. */
module FileAfter {
  import opened Asn1Time
  import opened Bytes
  import opened CleanRows
  import opened Database
  import opened Invocation
  import opened Issue
  import opened Revocation
  import opened RevInfo
  import opened Runs
  import opened SerialHex
  import opened TxtDb

  // ---------- expiry ----------

  /** A valid row whose expiry date has come. */
  predicate HasExpired(due: CString -> bool, r: Row) { StartsWith(r.typ, 0x56) && due(r.exp) }

  /** The rows with the status 'E' where it is due, if that is asked for. */
  function Aged(o: Command, rows: seq<Row>): (s: seq<Row>)
    ensures |s| == |rows|
  {
    seq(|rows|, k requires 0 <= k < |rows| =>
      if o.updatedb && HasExpired(o.due, rows[k]) then rows[k].(typ := [0x45]) else rows[k])
  }

  /** Rows have expired, and cannot be saved: the invocation ends. */
  predicate UpdateFails(o: Command, rows: seq<Row>) {
    o.updatedb && !o.updateSaved && exists k :: 0 <= k < |rows| && HasExpired(o.due, rows[k])
  }

  /** The database as it goes on. Its name index still holds the rows that have just expired. */
  function AgedDb(unique: bool, o: Command, rows: seq<Row>): Db {
    Db(Aged(o, rows), unique, if unique then set k: nat | k < |rows| && StartsWith(rows[k].typ, 0x56) else {})
  }

  lemma AgedIsExpired(o: Command, rows: seq<Row>)
    ensures o.updatedb ==> ExpireAll(o.due, rows) == Aged(o, rows)
    ensures CountDue(o.due, rows) == 0 <==> forall k :: 0 <= k < |rows| ==> !HasExpired(o.due, rows[k])
    ensures CountDue(o.due, rows) == 0 || !o.updatedb ==> Aged(o, rows) == rows
  {
    CountDueZero(o.due, rows);
    forall k | 0 <= k < |rows|
      ensures IsDue(o.due, rows[k]) <==> HasExpired(o.due, rows[k])
    {
    }
    if CountDue(o.due, rows) == 0 || !o.updatedb { assert Aged(o, rows) == rows; }
  }

  lemma UpdateIs(o: Command, s: Stage)
    requires s.go
    ensures Update(o, s) ==
              Stage(!UpdateFails(o, s.db.rows), s.db.(rows := Aged(o, s.db.rows)),
                    if o.updatedb && o.updateSaved && Aged(o, s.db.rows) != s.db.rows
                    then s.store.(file := FileOf(Aged(o, s.db.rows))) else s.store)
  {
    AgedIsExpired(o, s.db.rows);
    var rows := s.db.rows;
    if o.updatedb && CountDue(o.due, rows) != 0 {
      var k :| 0 <= k < |rows| && HasExpired(o.due, rows[k]);
      assert Aged(o, rows)[k] != rows[k];
    }
    assert s.db.(rows := rows) == s.db;
  }

  lemma AgedIsSaved(oidOk: OidFn, unique: bool, store: Store, o: Command)
    requires Readable(store) && Accepted(oidOk, unique, RowsIn(store)) && o.updatedb
    ensures ReadDb(FileOf(Aged(o, RowsIn(store)))) == Some(Aged(o, RowsIn(store)))
  {
    ReadRowsAreClean(store.file);
    ExpiredRowsAreClean(o.due, RowsIn(store));
    AgedIsExpired(o, RowsIn(store));
    Saved(Aged(o, RowsIn(store)));
  }

  lemma LoadIs(oidOk: OidFn, unique: bool, store: Store, o: Command)
    requires Readable(store) && Accepted(oidOk, unique, RowsIn(store))
    ensures var s := Load(oidOk, unique, store);
            && s.go && s.store == store && s.db.rows == RowsIn(store)
            && s.db.(rows := Aged(o, s.db.rows)) == AgedDb(unique, o, RowsIn(store))
  {
    var s, rows := Load(oidOk, unique, store), RowsIn(store);
    assert s.db == Indexed(unique, rows);
    assert forall k :: 0 <= k < |rows| ==> (Type(rows[k]) == TYPE_VAL <==> StartsWith(rows[k].typ, 0x56));
    assert s.db.nameIndex == AgedDb(unique, o, rows).nameIndex;
  }

  lemma AfterUpdate(oidOk: OidFn, unique: bool, store: Store, o: Command)
    requires Readable(store) && Accepted(oidOk, unique, RowsIn(store))
    ensures var rows, s := RowsIn(store), Update(o, Load(oidOk, unique, store));
            && s.store.serial == store.serial && s.store.written == store.written
            && (s.go <==> !UpdateFails(o, rows))
            && (s.go ==> s.db == AgedDb(unique, o, rows))
            && Readable(s.store) && RowsIn(s.store) == if UpdateFails(o, rows) then rows else Aged(o, rows)
  {
    LoadIs(oidOk, unique, store, o);
    UpdateIs(o, Load(oidOk, unique, store));
    AgedIsExpired(o, RowsIn(store));
    if o.updatedb { AgedIsSaved(oidOk, unique, store, o); }
  }

  // ---------- issuing ----------

  /** What the requests come to. */
  function BatchOf(unique: bool, store: Store, o: Command): Batch
    requires o.issue.Some?
  {
    IssueAll(o.issue.value.cfg, o.issue.value.reqs, store.serial, AgedDb(unique, o, RowsIn(store)))
  }

  /** There are certificates, and they are to be kept. */
  predicate HasCertificates(unique: bool, store: Store, o: Command) {
    && !UpdateFails(o, RowsIn(store)) && o.issue.Some? && o.issue.value.commit
    && BatchOf(unique, store, o).ok && BatchOf(unique, store, o).certs != []
  }

  /** Both files are put in place. */
  predicate SavesRows(unique: bool, store: Store, o: Command) {
    HasCertificates(unique, store, o) && o.issueSaved.BothSaved?
  }

  /** How many of them are written. */
  function NumWritten(unique: bool, store: Store, o: Command): (n: nat)
    requires o.issue.Some?
    ensures n <= |BatchOf(unique, store, o).certs|
  {
    var all := |BatchOf(unique, store, o).certs|;
    if o.issueSaved.NothingSaved? && o.issueSaved.written < all then o.issueSaved.written else all
  }

  /** The invocation comes to its revocation. */
  predicate GoesOn(unique: bool, store: Store, o: Command) {
    && !UpdateFails(o, RowsIn(store))
    && (o.issue.Some? ==>
          && BatchOf(unique, store, o).ok
          && (BatchOf(unique, store, o).certs == [] || (o.issue.value.commit && o.issueSaved.BothSaved?)))
    && !o.crlFails && o.revoke.Some? && o.revoke.value.cert.Some?
  }

  /** The rows before any revocation. */
  function RowsBefore(unique: bool, store: Store, o: Command): seq<Row> {
    if UpdateFails(o, RowsIn(store)) then RowsIn(store)
    else if SavesRows(unique, store, o) then BatchOf(unique, store, o).db.rows
    else Aged(o, RowsIn(store))
  }

  function DbBefore(unique: bool, store: Store, o: Command): Db {
    if o.issue.Some? then BatchOf(unique, store, o).db else AgedDb(unique, o, RowsIn(store))
  }

  lemma IssueIs(unique: bool, store: Store, o: Command, s: Stage)
    requires s.go && s.db == AgedDb(unique, o, RowsIn(store)) && !UpdateFails(o, RowsIn(store))
    requires s.store.serial == store.serial && s.store.written == store.written
    requires o.issue.Some? ==> Conserved(BatchOf(unique, store, o), store.serial, s.db)
    ensures var t := IssueJobs(o, s);
            && (ReachesRevoke(o, t) <==> GoesOn(unique, store, o))
            && (GoesOn(unique, store, o) ==> t.db == DbBefore(unique, store, o))
            && t.store.file == (if SavesRows(unique, store, o) then FileOf(BatchOf(unique, store, o).db.rows)
                                else s.store.file)
            && t.store.serial == (if HasCertificates(unique, store, o) && !o.issueSaved.NothingSaved?
                                  then store.serial + |BatchOf(unique, store, o).certs| else store.serial)
            && t.store.written == (if HasCertificates(unique, store, o)
                                   then store.written + BatchOf(unique, store, o).certs[..NumWritten(unique, store, o)]
                                   else store.written)
  {
    if o.issue.Some? {
      var b := BatchOf(unique, store, o);
      assert b.certs[..|b.certs|] == b.certs;
    }
  }

  lemma AfterIssue(oidOk: OidFn, unique: bool, store: Store, o: Command)
    requires Readable(store) && Accepted(oidOk, unique, RowsIn(store)) && (o.issue.Some? ==> IssueOk(o.issue.value))
    ensures var s := BeforeRevoke(oidOk, unique, store, o);
            && (ReachesRevoke(o, s) <==> GoesOn(unique, store, o))
            && (GoesOn(unique, store, o) ==> s.db == DbBefore(unique, store, o))
            && Readable(s.store) && RowsIn(s.store) == RowsBefore(unique, store, o)
            && s.store.serial == (if HasCertificates(unique, store, o) && !o.issueSaved.NothingSaved?
                                  then store.serial + |BatchOf(unique, store, o).certs| else store.serial)
            && s.store.written == (if HasCertificates(unique, store, o)
                                   then store.written + BatchOf(unique, store, o).certs[..NumWritten(unique, store, o)]
                                   else store.written)
  {
    AfterUpdate(oidOk, unique, store, o);
    var s := Update(o, Load(oidOk, unique, store));
    if s.go {
      if o.issue.Some? { BatchIsSaved(oidOk, unique, store, o); }
      IssueIs(unique, store, o, s);
    }
  }

  lemma BatchIsSaved(oidOk: OidFn, unique: bool, store: Store, o: Command)
    requires Readable(store) && Accepted(oidOk, unique, RowsIn(store)) && !UpdateFails(o, RowsIn(store))
    requires o.issue.Some? && IssueOk(o.issue.value)
    ensures var b := BatchOf(unique, store, o);
            Conserved(b, store.serial, AgedDb(unique, o, RowsIn(store))) && ReadDb(FileOf(b.db.rows)) == Some(b.db.rows)
  {
    var s0 := Load(oidOk, unique, store);
    LoadWorks(oidOk, unique, store);
    UpdateKeeps(oidOk, unique, o, s0);
    AfterUpdate(oidOk, unique, store, o);
    var s, job := Update(o, s0), o.issue.value;
    IssuedIsSaved(oidOk, job, s.db, s.store);
    SerialsAreConserved(job.cfg, job.reqs, store.serial, s.db);
  }

  // ---------- the whole invocation ----------

  /** The revocation, if the invocation comes to it. */
  function RevocationOf(oidOk: OidFn, unique: bool, store: Store, o: Command): (bool, Db)
    requires IsTime(o.now) && GoesOn(unique, store, o)
  {
    var job := o.revoke.value;
    Revoke(oidOk, TimeText(o.now), DbBefore(unique, store, o), job.cert.value, job.revType, job.arg)
  }

  predicate IsSavedRevocation(oidOk: OidFn, unique: bool, store: Store, o: Command)
    requires IsTime(o.now)
  {
    GoesOn(unique, store, o) && o.revokeSaved && RevocationOf(oidOk, unique, store, o).0
  }

  /** The files behind an invocation on an accepted file, whatever it was asked to do and
      whatever has failed. */
  lemma FilesExactly(oidOk: OidFn, unique: bool, store: Store, o: Command)
    requires OidsAreFields(oidOk) && Readable(store) && Accepted(oidOk, unique, RowsIn(store)) && CommandOk(o)
    ensures var after := Invoke(oidOk, unique, store, o);
            && RowsIn(after) == (if IsSavedRevocation(oidOk, unique, store, o)
                                 then RevocationOf(oidOk, unique, store, o).1.rows
                                 else RowsBefore(unique, store, o))
            && after.serial == (if HasCertificates(unique, store, o) && !o.issueSaved.NothingSaved?
                                then store.serial + |BatchOf(unique, store, o).certs| else store.serial)
            && after.written == (if HasCertificates(unique, store, o)
                                 then store.written + BatchOf(unique, store, o).certs[..NumWritten(unique, store, o)]
                                 else store.written)
  {
    var s := BeforeRevoke(oidOk, unique, store, o);
    AfterIssue(oidOk, unique, store, o);
    BeforeRevokeKeeps(oidOk, unique, store, o);
    RevokeKeeps(oidOk, unique, o, s);
    RevokeStores(oidOk, o, s);
    if IsSavedRevocation(oidOk, unique, store, o) {
      var job := o.revoke.value;
      RevokedIsSaved(oidOk, o.now, s.db, job.cert.value, job.revType, job.arg, s.store);
    }
  }

  /** The command asks for this row to be revoked. */
  predicate IsAskedFor(o: Command, r: Row) {
    && o.revoke.Some? && o.revoke.value.cert.Some? && o.revoke.value.revType != RevValid
    && HasSerial(r, o.revoke.value.cert.value.serial)
  }

  lemma RowsBeforeAt(oidOk: OidFn, unique: bool, store: Store, o: Command, k: nat)
    requires k < |RowsIn(store)|
    ensures var rows := RowsBefore(unique, store, o);
            && k < |rows|
            && rows[k] == if UpdateFails(o, RowsIn(store)) then RowsIn(store)[k] else Aged(o, RowsIn(store))[k]
  {
    if HasCertificates(unique, store, o) {
      SerialsAreConserved(o.issue.value.cfg, o.issue.value.reqs, store.serial, AgedDb(unique, o, RowsIn(store)));
    }
  }

  /** Every row of an accepted file that is not asked to be revoked: it has become expired
      exactly if `-updatedb` was given, it was valid and due, and the rows could be saved;
      otherwise it is as it was, whatever else was issued or revoked. */
  lemma RowAfter(oidOk: OidFn, unique: bool, store: Store, o: Command, k: nat)
    requires OidsAreFields(oidOk) && Readable(store) && Accepted(oidOk, unique, RowsIn(store)) && CommandOk(o)
    requires k < |RowsIn(store)| && !IsAskedFor(o, RowsIn(store)[k])
    ensures var before, after := RowsIn(store), RowsIn(Invoke(oidOk, unique, store, o));
            && k < |after|
            && after[k] == if o.updatedb && o.updateSaved && HasExpired(o.due, before[k]) then before[k].(typ := [0x45])
                           else before[k]
  {
    FilesExactly(oidOk, unique, store, o);
    RowsBeforeAt(oidOk, unique, store, o, k);
    AgedIsExpired(o, RowsIn(store));
    if IsSavedRevocation(oidOk, unique, store, o) { UntouchedByRevocation(oidOk, unique, store, o, k); }
  }

  lemma DbIsBefore(oidOk: OidFn, unique: bool, store: Store, o: Command)
    requires Readable(store) && Accepted(oidOk, unique, RowsIn(store)) && CommandOk(o) && GoesOn(unique, store, o)
    ensures DbBefore(unique, store, o).rows == RowsBefore(unique, store, o)
    ensures SerialsUnique(RowsBefore(unique, store, o))
  {
    AfterIssue(oidOk, unique, store, o);
    BeforeRevokeKeeps(oidOk, unique, store, o);
  }

  lemma UntouchedByRevocation(oidOk: OidFn, unique: bool, store: Store, o: Command, k: nat)
    requires Readable(store) && Accepted(oidOk, unique, RowsIn(store)) && CommandOk(o)
    requires k < |RowsIn(store)| && !IsAskedFor(o, RowsIn(store)[k])
    requires IsSavedRevocation(oidOk, unique, store, o)
    ensures var rows := RevocationOf(oidOk, unique, store, o).1.rows;
            k < |rows| && k < |RowsBefore(unique, store, o)| && rows[k] == RowsBefore(unique, store, o)[k]
  {
    var job, db := o.revoke.value, DbBefore(unique, store, o);
    DbIsBefore(oidOk, unique, store, o);
    RowsBeforeAt(oidOk, unique, store, o, k);
    OthersStay(oidOk, TimeText(o.now), db, job.cert.value, job.revType, job.arg, k);
  }

  /** A row that is asked to be revoked: it is, with the status and the text of a revocation,
      exactly if the invocation comes to it, the row's own state and the argument allow it, and
      the result can be saved. */
  lemma AskedRowAfter(oidOk: OidFn, unique: bool, store: Store, o: Command, k: nat)
    requires OidsAreFields(oidOk) && Readable(store) && Accepted(oidOk, unique, RowsIn(store)) && CommandOk(o)
    requires k < |RowsIn(store)| && IsAskedFor(o, RowsIn(store)[k])
    ensures var before, after, job := RowsIn(store), RowsIn(Invoke(oidOk, unique, store, o)), o.revoke.value;
            && k < |after|
            && if GoesOn(unique, store, o) && o.revokeSaved
                  && CanRevoke(oidOk, before[k], job.cert.value, job.revType, job.arg)
               then IsRevokedForm(before[k], after[k], job.revType, job.arg, TimeText(o.now))
               else after[k] == if o.updatedb && o.updateSaved && HasExpired(o.due, before[k])
                                then before[k].(typ := [0x45]) else before[k]
  {
    FilesExactly(oidOk, unique, store, o);
    RowsBeforeAt(oidOk, unique, store, o, k);
    AgedIsExpired(o, RowsIn(store));
    if GoesOn(unique, store, o) {
      var job, db := o.revoke.value, DbBefore(unique, store, o);
      DbIsBefore(oidOk, unique, store, o);
      RevokesFound(oidOk, TimeText(o.now), db, job.cert.value, job.revType, job.arg, k);
    }
  }

  /** Without `-updatedb`, or if its rows cannot be saved, no row becomes expired. */
  lemma ExpiresOnlyWhenAsked(oidOk: OidFn, unique: bool, store: Store, o: Command, k: nat)
    requires OidsAreFields(oidOk) && Readable(store) && Accepted(oidOk, unique, RowsIn(store)) && CommandOk(o)
    requires k < |RowsIn(store)| && StartsWith(RowsIn(store)[k].typ, 0x56) && !(o.updatedb && o.updateSaved)
    ensures var after := RowsIn(Invoke(oidOk, unique, store, o)); k < |after| && !StartsWith(after[k].typ, 0x45)
  {
    if IsAskedFor(o, RowsIn(store)[k]) {
      AskedRowAfter(oidOk, unique, store, o, k);
    } else {
      RowAfter(oidOk, unique, store, o, k);
    }
  }

  /** An invocation that is only to update does that and nothing else. */
  lemma UpdateAlone(oidOk: OidFn, unique: bool, store: Store, o: Command)
    requires OidsAreFields(oidOk) && Readable(store) && Accepted(oidOk, unique, RowsIn(store)) && IsTime(o.now)
    requires o.updatedb && o.updateSaved && o.issue.None? && o.revoke.None?
    ensures var before, after := RowsIn(store), Invoke(oidOk, unique, store, o);
            && after.serial == store.serial && after.written == store.written && |RowsIn(after)| == |before|
            && forall k :: 0 <= k < |before| ==>
                 RowsIn(after)[k] == if StartsWith(before[k].typ, 0x56) && o.due(before[k].exp)
                                     then before[k].(typ := [0x45]) else before[k]
  {
    FilesExactly(oidOk, unique, store, o);
  }
}

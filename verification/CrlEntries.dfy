/** The revocation list, entry by entry: which rows are on it, in which order, and what is said
    about each. */
module CrlEntries {
  import opened Bytes
  import opened CrlOcsp
  import opened Database
  import opened RevInfo
  import opened SerialHex
  import opened TxtDb

  predicate StartsWithR(r: Row) { r.typ != [] && r.typ[0] == 'R' as int }

  /** The serial, the date, the reason unless there is none, and the one extension. */
  predicate IsEntryOf(oidOk: OidFn, e: CrlEntry, r: Row) {
    var u := Unpack(oidOk, r.rev);
    && u.Some? && e.serial == SerialValue(r.serial) && e.date == u.value.time
    && e.exts == (if u.value.reason == -1 then [] else [ReasonExt(u.value.reason)])
                 + (if u.value.invalidity.Some? then [InvalidityExt(u.value.invalidity.value)]
                    else if u.value.hold.Some? then [HoldExt(u.value.hold.value)]
                    else [])
  }

  predicate AllRevoked(oidOk: OidFn, crl: seq<CrlEntry>, rows: seq<Row>, from: seq<nat>) {
    && |from| == |crl|
    && forall i: nat :: i < |from| ==> from[i] < |rows| && IsRevokedEntry(oidOk, crl[i], rows[from[i]])
  }

  predicate Increasing(from: seq<nat>) { forall i, j :: 0 <= i < j < |from| ==> from[i] < from[j] }

  predicate AllListed(rows: seq<Row>, from: seq<nat>) {
    forall k: nat :: k < |rows| && StartsWithR(rows[k]) ==> k in from
  }

  /** Entry `i` is that of row `from[i]`; all revoked rows are there, in their order. */
  predicate AreEntriesOf(oidOk: OidFn, crl: seq<CrlEntry>, rows: seq<Row>, from: seq<nat>) {
    AllRevoked(oidOk, crl, rows, from) && Increasing(from) && AllListed(rows, from)
  }

  predicate IsRevokedEntry(oidOk: OidFn, e: CrlEntry, r: Row) { StartsWithR(r) && IsEntryOf(oidOk, e, r) }

  lemma OneRow(oidOk: OidFn, r: Row)
    requires RowOk(oidOk, r)
    ensures if StartsWithR(r) then EntryIf(oidOk, r) == [EntryOf(oidOk, r)] && IsEntryOf(oidOk, EntryOf(oidOk, r), r)
            else EntryIf(oidOk, r) == []
  {
  }

  lemma OtherRow(oidOk: OidFn, crl: seq<CrlEntry>, rows: seq<Row>, from: seq<nat>, r: Row)
    requires AreEntriesOf(oidOk, crl, rows, from) && !StartsWithR(r)
    ensures AreEntriesOf(oidOk, crl, rows + [r], from)
  {
  }

  lemma ListedOneMore(rows: seq<Row>, from: seq<nat>, r: Row)
    requires AllListed(rows, from)
    ensures AllListed(rows + [r], from + [|rows|])
  {
    var more, all := rows + [r], from + [|rows|];
    forall k: nat | k < |more| && StartsWithR(more[k])
      ensures k in all
    {
      if k < |rows| {
        assert more[k] == rows[k];
      } else {
        assert all[|from|] == k;
      }
    }
  }

  lemma RevokedOneMore(oidOk: OidFn, crl: seq<CrlEntry>, rows: seq<Row>, from: seq<nat>, r: Row, e: CrlEntry)
    requires AllRevoked(oidOk, crl, rows, from) && IsRevokedEntry(oidOk, e, r)
    ensures AllRevoked(oidOk, crl + [e], rows + [r], from + [|rows|])
  {
    var more, all, list := rows + [r], from + [|rows|], crl + [e];
    forall i: nat | i < |all|
      ensures all[i] < |more| && IsRevokedEntry(oidOk, list[i], more[all[i]])
    {
      if i < |from| { assert IsRevokedEntry(oidOk, crl[i], rows[from[i]]); }
    }
  }

  lemma RevokedRow(oidOk: OidFn, crl: seq<CrlEntry>, rows: seq<Row>, from: seq<nat>, r: Row, e: CrlEntry)
    requires AreEntriesOf(oidOk, crl, rows, from) && IsRevokedEntry(oidOk, e, r)
    ensures AreEntriesOf(oidOk, crl + [e], rows + [r], from + [|rows|])
  {
    ListedOneMore(rows, from, r);
    RevokedOneMore(oidOk, crl, rows, from, r, e);
    forall i: nat | i < |from|
      ensures from[i] < |rows|
    {
    }
  }

  /** On a checked database the list has exactly one entry for each revoked row. */
  lemma {:induction false} ListExactly(oidOk: OidFn, rows: seq<Row>) returns (from: seq<nat>)
    requires RowsOk(oidOk, rows)
    ensures AreEntriesOf(oidOk, CrlOf(oidOk, rows), rows, from)
  {
    if rows == [] {
      from := [];
      EmptyList(oidOk, rows);
    } else {
      var n := |rows| - 1;
      assert rows == rows[..n] + [rows[n]];
      var before := ListExactly(oidOk, rows[..n]);
      from := OneMoreInList(oidOk, rows[..n], before, rows[n]);
    }
  }

  lemma EmptyList(oidOk: OidFn, rows: seq<Row>)
    requires rows == []
    ensures AreEntriesOf(oidOk, CrlOf(oidOk, rows), rows, [])
  {
  }

  lemma {:induction false} OneMoreInList(oidOk: OidFn, front: seq<Row>, from: seq<nat>, r: Row)
    returns (more: seq<nat>)
    requires AreEntriesOf(oidOk, CrlOf(oidOk, front), front, from) && RowOk(oidOk, r)
    ensures AreEntriesOf(oidOk, CrlOf(oidOk, front + [r]), front + [r], more)
  {
    var rows := front + [r];
    OneMoreRow(oidOk, rows, |front|);
    assert rows[..|front|] == front && rows[..|front| + 1] == rows;
    OneRow(oidOk, r);
    more := from;
    if StartsWithR(r) {
      RevokedRow(oidOk, CrlOf(oidOk, front), front, from, r, EntryOf(oidOk, r));
      more := from + [|front|];
    } else {
      OtherRow(oidOk, CrlOf(oidOk, front), front, from, r);
      assert CrlOf(oidOk, rows) == CrlOf(oidOk, front);
    }
  }
}

/** The certificate database in memory: row objects that are changed in place. */
module CaDatabase {
  import opened Asn1Time
  import opened Bytes
  import opened Database
  import opened RevInfo
  import opened SerialHex
  import opened TxtDb

  class DbRow {
    var typ: CString
    var exp: CString
    var rev: CString
    const serial: CString
    const file: CString
    const name: CString

    ghost predicate Is(r: Row)
      reads this
    {
      r == Row(typ, exp, rev, serial, file, name)
    }

    constructor (r: Row)
      ensures Is(r)
    {
      typ, exp, rev, serial, file, name := r.typ, r.exp, r.rev, r.serial, r.file, r.name;
    }
  }

  /** The test of a serial field at load time. */
  method CheckSerial(serial: CString) returns (ok: bool)
    ensures ok <==> SerialOk(serial)
  {
    var p, j := 0, |serial|;
    if p < |serial| && serial[p] == HYPHEN {
      p := p + 1;
      j := j - 1;
    }
    if j % 2 == 1 || j < 2 {
      return false;
    }
    ghost var m, first := Magnitude(serial), p;
    assert m == serial[first..];
    while p < |serial|
      invariant first <= p <= |serial| && AllHex(m[..p - first])
    {
      assert m[p - first] == serial[p];
      if !IsHex(serial[p]) {
        return false;
      }
      p := p + 1;
    }
    assert m[..p - first] == m;
    ok := true;
  }

  /** The checks of one row. */
  method CheckRow(oidOk: OidFn, pp: DbRow, ghost r: Row) returns (ok: bool)
    requires pp.Is(r)
    ensures ok <==> RowOk(oidOk, r)
  {
    var typ := if pp.typ == [] then 0 else pp.typ[0];
    if typ != TYPE_REV && pp.rev != [] {
      return false;
    }
    if typ == TYPE_REV {
      var revoked, _ := UnpackRevinfo(oidOk, pp.rev);
      if revoked.None? {
        return false;
      }
    }
    if !TimeOk(pp.exp) {
      return false;
    }
    ok := CheckSerial(pp.serial);
  }

  class CaDb {
    const unique: bool
    var data: seq<DbRow>
    var nameIndex: set<nat>
    ghost var rows: seq<Row>  // the rows as values

    ghost predicate Valid()
      reads this, data
    {
      && |rows| == |data|
      && (forall i {:trigger data[i]} {:trigger rows[i]} :: 0 <= i < |data| ==> data[i].Is(rows[i]))
      && (forall i, j :: 0 <= i < j < |data| ==> data[i] != data[j])
    }

    ghost function Abs(): Db
      reads this
    {
      Db(rows, unique, nameIndex)
    }

    /** The rows of a file that was read, not yet indexed. */
    constructor (table: seq<Row>, unique: bool)
      ensures Valid() && rows == table && this.unique == unique && fresh(data)
    {
      this.unique, data, nameIndex, rows := unique, [], {}, [];
      new;
      for n := 0 to |table|
        invariant Valid() && rows == table[..n] && fresh(data) && this.unique == unique
      {
        var row := new DbRow(table[n]);
        data, rows := data + [row], rows + [table[n]];
      }
    }

    /** The checks behind `load_index`. */
    method CheckRows(oidOk: OidFn) returns (ok: bool)
      requires Valid()
      ensures ok <==> RowsOk(oidOk, rows)
    {
      for i := 0 to |data|
        invariant forall k :: 0 <= k < i ==> RowOk(oidOk, rows[k])
      {
        ok := CheckRow(oidOk, data[i], rows[i]);
        if !ok {
          return;
        }
      }
      ok := true;
    }

    /** `index_index`: an index over all serials, and one over the names of valid rows. */
    method IndexIndex() returns (ok: bool)
      requires Valid()
      modifies this`nameIndex
      ensures ok <==> SerialsUnique(rows) && (unique ==> NamesUnique(rows))
      ensures ok ==> Abs() == Indexed(unique, rows)
    {
      ok := IndexSerials();
      nameIndex := {};
      if ok && unique {
        ok := IndexNames();
      }
    }

    method IndexSerials() returns (ok: bool)
      requires Valid()
      ensures ok <==> SerialsUnique(rows)
    {
      var keys: set<seq<byte>> := {};
      for i := 0 to |data|
        invariant SerialsUnique(rows[..i]) && forall s :: s in keys <==> exists k :: 0 <= k < i && Key(rows[k]) == s
      {
        var key := StripZeros(data[i].serial);
        assert data[i].Is(rows[i]);
        if key in keys {
          return false;
        }
        keys := keys + {key};
      }
      assert rows[..|data|] == rows;
      ok := true;
    }

    method IndexNames() returns (ok: bool)
      requires Valid() && nameIndex == {}
      modifies this`nameIndex
      ensures ok <==> NamesUnique(rows)
      ensures ok ==> nameIndex == set i: nat | i < |rows| && Type(rows[i]) == TYPE_VAL
    {
      for i := 0 to |data|
        invariant nameIndex == set k: nat | k < i && Type(rows[k]) == TYPE_VAL
        invariant NamesUnique(rows[..i])
      {
        assert data[i].Is(rows[i]);
        if data[i].typ != [] && data[i].typ[0] == TYPE_VAL {
          var clash := GetByName(data[i].name);
          if clash.Some? {
            return false;
          }
          nameIndex := nameIndex + {i};
        }
      }
      assert rows[..|data|] == rows;
      ok := true;
    }

    method GetBySerial(serial: CString) returns (k: Option<nat>)
      requires Valid()
      ensures k == FindSerial(rows, serial)
    {
      var i := |data|;
      assert rows[..i] == rows;
      while i > 0
        invariant 0 <= i <= |data| && FindSerial(rows, serial) == FindSerial(rows[..i], serial)
      {
        i := i - 1;
        assert rows[..i + 1][..i] == rows[..i] && data[i].Is(rows[i]);
        if StripZeros(data[i].serial) == StripZeros(serial) {
          return Some(i);
        }
      }
      k := None;
    }

    method GetByName(name: CString) returns (k: Option<nat>)
      requires Valid()
      ensures k.Some? <==> HasName(Abs(), name)
      ensures k.Some? ==> k.value in nameIndex && k.value < |rows| && rows[k.value].name == name
    {
      for i: nat := 0 to |data|
        invariant forall n :: n in nameIndex && n < i ==> rows[n].name != name
      {
        assert data[i].Is(rows[i]);
        if i in nameIndex && data[i].name == name {
          return Some(i);
        }
      }
      k := None;
    }

    /** `TXT_DB_insert` */
    method Insert(r: Row) returns (ok: bool)
      requires Valid()
      modifies this
      ensures Valid() && (data == old(data) || exists row :: fresh(row) && data == old(data) + [row])
      ensures if ok then Database.Insert(old(Abs()), r) == Some(Abs())
              else Database.Insert(old(Abs()), r) == None && Abs() == old(Abs())
    {
      var k := GetBySerial(r.serial);
      if k.Some? {
        return false;
      }
      if unique && r.typ != [] && r.typ[0] == TYPE_VAL {
        var same := GetByName(r.name);
        if same.Some? {
          return false;
        }
      }
      var row := new DbRow(r);
      if unique && r.typ != [] && r.typ[0] == TYPE_VAL {
        nameIndex := nameIndex + {|data|};
      }
      data, rows := data + [row], rows + [r];
      ok := true;
    }

    /** `rrow[DB_type][0] = DB_TYPE_EXP; rrow[DB_type][1] = '\0';` */
    method SetExpired(k: nat)
      requires Valid() && k < |data|
      modifies this`rows, data[k]
      ensures Valid() && rows == old(rows)[k := MarkExpired(old(rows)[k])]
    {
      assert data[k].Is(rows[k]);
      data[k].typ := [TYPE_EXP];
      rows := rows[k := MarkExpired(rows[k])];
    }

    /** The same with DB_TYPE_REV, and the revocation field. */
    method SetRevoked(k: nat, revStr: CString)
      requires Valid() && k < |data|
      modifies this`rows, data[k]
      ensures Valid() && rows == old(rows)[k := MarkRevoked(old(rows)[k], revStr)]
    {
      var rrow := data[k];
      assert rrow.Is(rows[k]);
      if rrow.typ == [] {
        rrow.exp := [];
      }
      rrow.typ := [TYPE_REV];
      rrow.rev := revStr;
      rows := rows[k := MarkRevoked(rows[k], revStr)];
    }

    /** One round of the loop of `do_updatedb`; None for a bad date. */
    method ExpireRow(k: nat, due: CString -> bool, ghost before: seq<Row>) returns (expired: Option<bool>)
      requires Valid() && k < |data| == |before| && rows == ExpireUpTo(due, before, k)
      modifies this`rows, data[k]
      ensures Valid()
      ensures expired.None? ==> Type(before[k]) == TYPE_VAL && !TimeOk(before[k].exp) && rows == old(rows)
      ensures expired.Some? ==>
                && (DatesOk(before[..k]) ==> DatesOk(before[..k + 1]))
                && rows == ExpireUpTo(due, before, k + 1)
                && CountDue(due, before[..k + 1]) == CountDue(due, before[..k]) + if expired.value then 1 else 0
    {
      var rrow := data[k];
      assert rrow.Is(rows[k]);
      ExpireStep(due, before, k);
      if rrow.typ != [] && rrow.typ[0] == TYPE_VAL {
        if !TimeOk(rrow.exp) {
          return None;
        }
        if due(rrow.exp) {
          SetExpired(k);
          return Some(true);
        }
      }
      expired := Some(false);
    }

    /** `do_updatedb`; `due` tells which accepted dates are not after the present. It stops at
        the first valid row with a bad date, leaving the rows before it updated. */
    method DoUpdatedb(due: CString -> bool) returns (cnt: int, ghost at: nat)
      requires Valid()
      modifies this`rows, data
      ensures Valid() && at <= |old(rows)| && rows == ExpireUpTo(due, old(rows), at)
      ensures DatesOk(old(rows)[..at])
      ensures if at < |old(rows)| then cnt == -1 && Type(old(rows)[at]) == TYPE_VAL && !TimeOk(old(rows)[at].exp)
              else rows == ExpireAll(due, old(rows)) && cnt == CountDue(due, old(rows))
    {
      cnt, at := 0, 0;
      ghost var before := rows;
      ExpireNone(due, before);
      for i := 0 to |data|
        invariant Valid() && at == i && rows == ExpireUpTo(due, before, i)
        invariant cnt == CountDue(due, before[..i])
        invariant DatesOk(before[..i])
      {
        var expired := ExpireRow(i, due, before);
        if expired.None? {
          cnt := -1;
          return;
        }
        if expired.value {
          cnt := cnt + 1;
        }
        at := at + 1;
      }
      ExpireAllOf(due, before);
    }

    /** `do_revoke` with a certificate whose row is there. */
    method RevokeRow(oidOk: OidFn, now: CString, k: nat, c: Cert, revType: RevType, arg: CString) returns (ok: bool)
      requires Valid() && FindSerial(rows, SerialText(c.serial)) == Some(k)
      modifies this`rows, data[k]
      ensures Valid() && (ok, Abs()) == Revoke(oidOk, now, old(Abs()), c, revType, arg)
    {
      var rrow := data[k];
      assert rrow.Is(rows[k]);
      if RowName(c) != rrow.name {
        return false;
      } else if revType == RevValid {
        return false;
      } else if rrow.typ != [] && rrow.typ[0] == TYPE_REV {
        return false;
      }
      var revStr := MakeRevocationStr(oidOk, revType, arg, now);
      if revStr.None? {
        return false;
      }
      SetRevoked(k, revStr.value);
      ok := true;
    }

    /** `do_revoke`. It calls itself at most once: the row it has inserted is found. */
    method DoRevoke(oidOk: OidFn, now: CString, c: Cert, revType: RevType, arg: CString) returns (ok: bool)
      requires Valid()
      modifies this, data
      ensures Valid() && (ok, Abs()) == Revoke(oidOk, now, old(Abs()), c, revType, arg)
      decreases if FindSerial(rows, SerialText(c.serial)).None? then 1 else 0
    {
      var k := GetBySerial(SerialText(c.serial));
      if k.Some? {
        ok := RevokeRow(oidOk, now, k.value, c, revType, arg);
        return;
      }
      ok := Insert(NewRow(c));
      if !ok || revType == RevValid {
        return;
      }
      assert Key(rows[|old(rows)|]) == StripZeros(SerialText(c.serial));
      ok := DoRevoke(oidOk, now, c, revType, arg);
    }
  }

  /** The valid rows have well-formed expiry dates. */
  ghost predicate DatesOk(rows: seq<Row>) {
    forall i :: 0 <= i < |rows| && Type(rows[i]) == TYPE_VAL ==> TimeOk(rows[i].exp)
  }

  /** The first `n` rows have been looked at. */
  ghost function ExpireUpTo(due: CString -> bool, rows: seq<Row>, n: nat): (s: seq<Row>)
    requires n <= |rows|
    ensures |s| == |rows|
  {
    ExpireAll(due, rows[..n]) + rows[n..]
  }

  lemma ExpireNone(due: CString -> bool, rows: seq<Row>)
    ensures ExpireUpTo(due, rows, 0) == rows
  {
  }

  lemma ExpireAllOf(due: CString -> bool, rows: seq<Row>)
    ensures ExpireUpTo(due, rows, |rows|) == ExpireAll(due, rows) && rows[..|rows|] == rows
  {
  }

  lemma ExpireStep(due: CString -> bool, rows: seq<Row>, n: nat)
    requires n < |rows|
    ensures var s, t := ExpireUpTo(due, rows, n), ExpireUpTo(due, rows, n + 1);
            |s| == |t| == |rows| && s[n] == rows[n] && t == if IsDue(due, rows[n]) then s[n := MarkExpired(s[n])] else s
    ensures CountDue(due, rows[..n + 1]) == CountDue(due, rows[..n]) + if IsDue(due, rows[n]) then 1 else 0
  {
    assert rows[..n + 1][..n] == rows[..n];
  }
}

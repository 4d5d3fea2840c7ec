/** Which databases the program accepts, field by field. */
module LoadCheck {
  import opened Asn1Time
  import opened Bytes
  import opened Database
  import opened RevInfo
  import opened SerialHex
  import opened TxtDb

  predicate IsHexDigit(c: byte) {
    var ch := c as char;
    '0' <= ch <= '9' || 'A' <= ch <= 'F' || 'a' <= ch <= 'f'
  }

  /** A sign, and an even number of hexadecimal digits. */
  predicate SerialMayStand(s: seq<byte>) {
    var from := if s != [] && s[0] == '-' as int then 1 else 0;
    (|s| - from) % 2 == 0 && |s| - from >= 2 && forall i :: from <= i < |s| ==> IsHexDigit(s[i])
  }

  predicate RowMayStand(oidOk: OidFn, r: Row) {
    && (if r.typ != [] && r.typ[0] == 'R' as int then Unpack(oidOk, r.rev).Some? else r.rev == [])
    && (UtcOk(r.exp) || GeneralizedOk(r.exp))
    && SerialMayStand(r.serial)
  }

  lemma RowOkExactly(oidOk: OidFn, r: Row)
    ensures RowOk(oidOk, r) <==> RowMayStand(oidOk, r)
  {
    var s := r.serial;
    var from := if s != [] && s[0] == HYPHEN then 1 else 0;
    var m := Magnitude(s);
    assert |m| == |s| - from && forall i :: from <= i < |s| ==> m[i - from] == s[i];
    if AllHex(m) {
      forall i | from <= i < |s|
        ensures IsHexDigit(s[i])
      {
        assert IsHex(m[i - from]);
      }
    }
    if SerialMayStand(s) {
      forall i | 0 <= i < |m|
        ensures IsHex(m[i])
      {
        assert IsHexDigit(s[i + from]);
      }
    }
  }

  /** The index takes two serials for the same if they are so behind their leading zeros. */
  lemma KeyExactly(s: seq<byte>)
    ensures var key := StripZeros(s);
            var n := |s| - |key|;
            && n >= 0 && s[n..] == key
            && (forall i :: 0 <= i < n ==> s[i] == '0' as int) && (key != [] ==> key[0] != '0' as int)
  {
    if s != [] && s[0] == ZERO {
      KeyExactly(s[1..]);
      var n := |s[1..]| - |StripZeros(s[1..])|;
      assert s[1..][n..] == s[n + 1..];
      assert forall i :: 0 < i < n + 1 ==> s[i] == s[1..][i - 1];
    }
  }

  predicate IsValidRow(r: Row) { r.typ != [] && r.typ[0] == 'V' as int }

  /** The exact condition for a database to be loaded. */
  lemma AcceptedExactly(oidOk: OidFn, unique: bool, rows: seq<Row>)
    ensures Accepted(oidOk, unique, rows) <==>
              && (forall i :: 0 <= i < |rows| ==> RowMayStand(oidOk, rows[i]))
              && (forall i, j :: 0 <= i < j < |rows| ==> StripZeros(rows[i].serial) != StripZeros(rows[j].serial))
              && (unique ==>
                    forall i, j :: 0 <= i < j < |rows| && IsValidRow(rows[i]) && IsValidRow(rows[j]) ==>
                      rows[i].name != rows[j].name)
  {
    forall i | 0 <= i < |rows|
      ensures RowOk(oidOk, rows[i]) <==> RowMayStand(oidOk, rows[i])
      ensures Type(rows[i]) == TYPE_VAL <==> IsValidRow(rows[i])
    {
      RowOkExactly(oidOk, rows[i]);
    }
  }

  // ---------- the text ----------

  /** Six fields with tabs between them, and a newline. */
  function Tabbed(typ: seq<byte>, exp: seq<byte>, rev: seq<byte>, serial: seq<byte>, file: seq<byte>,
                  name: seq<byte>): seq<byte> {
    var t := ['\t' as int];
    typ + t + (exp + t + (rev + t + (serial + t + (file + t + name)))) + ['\n' as int]
  }

  /** So a row is written, with its tabs escaped. */
  lemma WrittenLine(r: Row)
    ensures WriteLine(r) == Tabbed(Escape(r.typ), Escape(r.exp), Escape(r.rev), Escape(r.serial), Escape(r.file),
                                   Escape(r.name))
  {
    var e := [r.file] + [r.name];
    var d := [r.serial] + e;
    var c := [r.rev] + d;
    var b := [r.exp] + c;
    assert Fields(r) == [r.typ] + b;
    JoinFirst(r.typ, b);
    JoinFirst(r.exp, c);
    JoinFirst(r.rev, d);
    JoinFirst(r.serial, e);
    JoinFirst(r.file, [r.name]);
  }

  lemma JoinFirst(f: CString, rest: seq<CString>)
    requires rest != []
    ensures Join([f] + rest) == Escape(f) + ['\t' as int] + Join(rest)
  {
    assert ([f] + rest)[1..] == rest;
  }

  /** A tab is written with a backslash before it, every other character as it is. */
  lemma EscapedOne(c: byte)
    ensures Escape([c]) == if c == '\t' as int then ['\\' as int, '\t' as int] else [c]
  {
    assert [c][1..] == [];
  }

  lemma EscapedFirst(c: byte, rest: seq<byte>)
    ensures Escape([c] + rest) == Escape([c]) + Escape(rest)
  {
    EscapedOne(c);
    assert ([c] + rest)[1..] == rest;
  }

  lemma {:induction false} EscapedTogether(a: seq<byte>, b: seq<byte>)
    ensures Escape(a + b) == Escape(a) + Escape(b)
  {
    if a == [] {
      assert a + b == b;
    } else {
      var c, rest := a[0], a[1..];
      assert a == [c] + rest && a + b == [c] + (rest + b);
      EscapedTogether(rest, b);
      EscapedFirst(c, rest);
      EscapedFirst(c, rest + b);
    }
  }

  // ---------- reading ----------

  lemma {:induction false} FieldsOfLine(fs: seq<CString>)
    requires fs != [] && OnlyLastEndsInBackslash(fs)
    ensures SplitLine(Join(fs), []) == fs
  {
    SplitJoined(fs, []);
    assert [[] + fs[0]] + fs[1..] == fs by { assert [] + fs[0] == fs[0]; }
    MergeIsIdentity(fs);
  }

  /** A line is a row if it has six fields, or a seventh that is empty, and nothing else is. */
  lemma {:induction false} LineExactly(fs: seq<CString>)
    requires fs != [] && OnlyLastEndsInBackslash(fs) && 0 !in Join(fs)
    ensures ReadLine(Join(fs))
         == if |fs| == 6 then Some(fs) else if |fs| == 7 && fs[6] == [] then Some(fs[..6]) else None
  {
    FieldsOfLine(fs);
  }

  /** A line that begins with '#' is skipped, up to what fits into the first buffer. */
  lemma {:induction false} FirstCommentExactly(line: CString, rest: CString)
    requires '\n' as int !in line && line != [] && line[0] == '#' as int
    ensures var text := line + ['\n' as int] + rest;
            ReadDb(text) == if |line| + 2 <= 512 then ReadDb(rest) else ReadDb(text[511..])
  {
    CommentIsCut(line, rest, 512);
  }

  /** The buffer is a multiple of 512 bytes: it grows to the first that is more than the line. */
  lemma {:induction false} BufferExactly(k: nat, len: nat)
    ensures Grown(512 * k, len) == if len < 512 * k then 512 * k else 512 * (len / 512 + 1)
    decreases len - 512 * k
  {
    if len >= 512 * k {
      BufferExactly(k + 1, len);
      if len < 512 * (k + 1) { assert len / 512 == k; }
    }
  }
}

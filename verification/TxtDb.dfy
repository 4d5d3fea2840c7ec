/** The text file behind the certificate database: `TXT_DB_write` and `TXT_DB_read`. */
module TxtDb {
  import opened Bytes

  const TAB: byte := 9
  const NEWLINE: byte := 10
  const BACKSLASH: byte := 0x5C
  const HASH_SIGN: byte := 0x23

  /** A row of the database, in the order of its columns. */
  datatype Row = Row(typ: CString, exp: CString, rev: CString, serial: CString, file: CString, name: CString)

  const DB_NUMBER: nat := 6

  function Fields(r: Row): (fs: seq<CString>)
    ensures |fs| == DB_NUMBER
  {
    [r.typ, r.exp, r.rev, r.serial, r.file, r.name]
  }

  function FromFields(fs: seq<CString>): Row
    requires |fs| == DB_NUMBER
  {
    Row(fs[0], fs[1], fs[2], fs[3], fs[4], fs[5])
  }

  // ---------- one line ----------

  /** A backslash before every tab. */
  function Escape(f: seq<byte>): seq<byte> {
    if f == [] then [] else (if f[0] == TAB then [BACKSLASH, TAB] else [f[0]]) + Escape(f[1..])
  }

  /** The fields with tabs between them. */
  function Join(fs: seq<CString>): seq<byte>
    requires fs != []
  {
    if |fs| == 1 then Escape(fs[0]) else Escape(fs[0]) + [TAB] + Join(fs[1..])
  }

  /** The splitting loop: a tab ends a field, unless the character before it is a
      backslash, which it then replaces. */
  function SplitLine(line: seq<byte>, cur: seq<byte>): (fs: seq<seq<byte>>)
    ensures fs != []
    decreases |line|
  {
    if line == [] then [cur]
    else if line[0] == TAB then
      if EndsInBackslash(cur) then SplitLine(line[1..], cur[..|cur| - 1] + [TAB])
      else [cur] + SplitLine(line[1..], [])
    else SplitLine(line[1..], cur + [line[0]])
  }

  predicate EndsInBackslash(f: seq<byte>) { f != [] && f[|f| - 1] == BACKSLASH }

  /** A line needs six fields; one more tab at its very end is let pass. */
  function ReadLine(line: CString): Option<seq<CString>> {
    var fs := SplitLine(line, []);
    SplitIsText(line, []);
    if |fs| == DB_NUMBER then Some(fs)
    else if |fs| == DB_NUMBER + 1 && fs[DB_NUMBER] == [] then Some(fs[..DB_NUMBER])
    else None
  }

  lemma {:induction false} SplitIsText(line: seq<byte>, cur: seq<byte>)
    requires 0 !in line && 0 !in cur
    ensures forall i :: 0 <= i < |SplitLine(line, cur)| ==> 0 !in SplitLine(line, cur)[i]
    decreases |line|
  {
    if line != [] {
      if line[0] == TAB {
        if EndsInBackslash(cur) {
          SplitIsText(line[1..], cur[..|cur| - 1] + [TAB]);
        } else {
          SplitIsText(line[1..], []);
        }
      } else {
        SplitIsText(line[1..], cur + [line[0]]);
      }
    }
  }

  /** What reading makes of fields that were written: one that ends in a backslash swallows
      the tab behind it and runs into the next field. */
  function Merge(fs: seq<seq<byte>>): (m: seq<seq<byte>>)
    requires fs != []
    ensures 1 <= |m| <= |fs|
    decreases |fs|
  {
    if |fs| == 1 then fs
    else if EndsInBackslash(fs[0]) then Merge([fs[0][..|fs[0]| - 1] + [TAB] + fs[1]] + fs[2..])
    else [fs[0]] + Merge(fs[1..])
  }

  predicate OnlyLastEndsInBackslash(fs: seq<seq<byte>>) {
    forall i :: 0 <= i < |fs| - 1 ==> !EndsInBackslash(fs[i])
  }

  lemma {:induction false} MergeIsIdentity(fs: seq<seq<byte>>)
    requires fs != []
    ensures OnlyLastEndsInBackslash(fs) ==> Merge(fs) == fs
    ensures !OnlyLastEndsInBackslash(fs) ==> |Merge(fs)| < |fs|
    decreases |fs|
  {
    if |fs| > 1 && !EndsInBackslash(fs[0]) {
      MergeIsIdentity(fs[1..]);
      assert fs == [fs[0]] + fs[1..];
      if OnlyLastEndsInBackslash(fs[1..]) {
        forall i | 0 <= i < |fs| - 1
          ensures !EndsInBackslash(fs[i])
        {
          assert i > 0 ==> fs[i] == fs[1..][i - 1];
        }
      } else {
        var i :| 0 <= i < |fs[1..]| - 1 && EndsInBackslash(fs[1..][i]);
        assert fs[i + 1] == fs[1..][i];
      }
    }
  }

  lemma SplitOne(c: byte, rest: seq<byte>, cur: seq<byte>)
    ensures c != TAB ==> SplitLine([c] + rest, cur) == SplitLine(rest, cur + [c])
    ensures SplitLine([BACKSLASH, TAB] + rest, cur) == SplitLine(rest, cur + [TAB])
  {
  }

  /** Reading an escaped field appends it to what is there. */
  lemma {:induction false} SplitEscaped(f: seq<byte>, tail: seq<byte>, cur: seq<byte>)
    ensures SplitLine(Escape(f) + tail, cur) == SplitLine(tail, cur + f)
    decreases |f|
  {
    if f == [] {
      assert Escape(f) + tail == tail && cur + f == cur;
    } else {
      var first := if f[0] == TAB then [BACKSLASH, TAB] else [f[0]];
      var more := Escape(f[1..]);
      assert first + more + tail == first + (more + tail);
      SplitOne(f[0], more + tail, cur);
      SplitEscaped(f[1..], tail, cur + [f[0]]);
      assert cur + [f[0]] + f[1..] == cur + f;
    }
  }

  lemma {:induction false} SplitJoined(fs: seq<CString>, cur: seq<byte>)
    requires fs != []
    ensures SplitLine(Join(fs), cur) == Merge([cur + fs[0]] + fs[1..])
    decreases |fs|
  {
    var f := cur + fs[0];
    if |fs| == 1 {
      assert Escape(fs[0]) + [] == Escape(fs[0]);
      SplitEscaped(fs[0], [], cur);
      assert [f] + fs[1..] == [f];
    } else {
      var tail := [TAB] + Join(fs[1..]);
      assert Join(fs) == Escape(fs[0]) + tail;
      SplitEscaped(fs[0], tail, cur);
      assert tail[1..] == Join(fs[1..]);
      var all := [f] + fs[1..];
      assert all[0] == f && all[1] == fs[1] && all[2..] == fs[2..] && all[1..] == fs[1..];
      if EndsInBackslash(f) {
        var g := f[..|f| - 1] + [TAB];
        SplitJoined(fs[1..], g);
        assert fs[1..][0] == fs[1] && fs[1..][1..] == fs[2..];
      } else {
        SplitJoined(fs[1..], []);
        assert [] + fs[1] == fs[1] && [fs[1]] + fs[2..] == fs[1..] && fs[1..][1..] == fs[2..];
      }
    }
  }

  /** Six written fields are read back exactly if none but the last ends in a backslash;
      otherwise the line is refused or read as something else. */
  lemma LineRoundTrip(fs: seq<CString>)
    requires |fs| == DB_NUMBER && 0 !in Join(fs)
    ensures ReadLine(Join(fs)) == Some(fs) <==> OnlyLastEndsInBackslash(fs)
    ensures !OnlyLastEndsInBackslash(fs) ==> ReadLine(Join(fs)) == None
  {
    SplitJoined(fs, []);
    assert [[] + fs[0]] + fs[1..] == fs by { assert [] + fs[0] == fs[0]; }
    MergeIsIdentity(fs);
  }

  /** Fields that were read never end in a backslash, except possibly the last. */
  lemma {:induction false} SplitNeverEndsInBackslash(line: seq<byte>, cur: seq<byte>)
    ensures OnlyLastEndsInBackslash(SplitLine(line, cur))
    decreases |line|
  {
    if line != [] {
      if line[0] == TAB {
        if EndsInBackslash(cur) {
          SplitNeverEndsInBackslash(line[1..], cur[..|cur| - 1] + [TAB]);
        } else {
          SplitNeverEndsInBackslash(line[1..], []);
          var rest := SplitLine(line[1..], []);
          forall i | 0 <= i < |[cur] + rest| - 1
            ensures !EndsInBackslash(([cur] + rest)[i])
          {
            assert i > 0 ==> ([cur] + rest)[i] == rest[i - 1];
          }
        }
      } else {
        SplitNeverEndsInBackslash(line[1..], cur + [line[0]]);
      }
    }
  }

  lemma {:induction false} SplitKeepsOut(line: seq<byte>, cur: seq<byte>, c: byte)
    requires c !in line && c !in cur && c != TAB
    ensures forall i :: 0 <= i < |SplitLine(line, cur)| ==> c !in SplitLine(line, cur)[i]
    decreases |line|
  {
    if line != [] {
      if line[0] == TAB {
        if EndsInBackslash(cur) {
          SplitKeepsOut(line[1..], cur[..|cur| - 1] + [TAB], c);
        } else {
          SplitKeepsOut(line[1..], [], c);
        }
      } else {
        SplitKeepsOut(line[1..], cur + [line[0]], c);
      }
    }
  }

  lemma {:induction false} EscapeKeepsOut(f: seq<byte>, c: byte)
    requires c !in f && c != BACKSLASH
    ensures c !in Escape(f)
  {
    if f != [] { EscapeKeepsOut(f[1..], c); }
  }

  lemma {:induction false} JoinKeepsOut(fs: seq<CString>, c: byte)
    requires fs != [] && c != TAB && c != BACKSLASH && forall i :: 0 <= i < |fs| ==> c !in fs[i]
    ensures c !in Join(fs)
    decreases |fs|
  {
    EscapeKeepsOut(fs[0], c);
    if |fs| > 1 { JoinKeepsOut(fs[1..], c); }
  }

  // ---------- the file ----------

  function WriteLine(r: Row): seq<byte> { Join(Fields(r)) + [NEWLINE] }

  /** `TXT_DB_write` */
  function WriteDb(rows: seq<Row>): seq<byte> {
    if rows == [] then [] else WriteLine(rows[0]) + WriteDb(rows[1..])
  }

  /** The first newline, or the length of the text. */
  function NewlineAt(s: seq<byte>): (i: nat)
    ensures i <= |s| && NEWLINE !in s[..i] && (i < |s| ==> s[i] == NEWLINE)
  {
    if s == [] || s[0] == NEWLINE then 0 else
      var i := 1 + NewlineAt(s[1..]);
      assert s[..i] == [s[0]] + s[1..][..i - 1];
      i
  }

  const BUFSIZE: nat := 512

  /** The size of the line buffer after a line of `len` bytes: it grows, and never shrinks. */
  function Grown(size: nat, len: nat): (n: nat)
    ensures n >= size
    decreases len - size
  {
    if len < size then size else Grown(size + BUFSIZE, len)
  }

  /** `TXT_DB_read` with a buffer of some size: line by line, without an unfinished last
      line; None if some line does not have six fields. Of a comment only as much is skipped
      as fits into the buffer; what is left of it is read as the next line. */
  function ReadFrom(text: CString, size: nat): Option<seq<Row>>
    requires size >= 2
    decreases |text|
  {
    var i := NewlineAt(text);
    if text == [] then Some([])
    else if text[0] == HASH_SIGN then ReadFrom(text[Min(Min(i + 1, |text|), size - 1)..], size)
    else if i == |text| then Some([])
    else
      var fs, more := ReadLine(text[..i]), ReadFrom(text[i + 1..], Grown(size, i + 1));
      if fs.None? || more.None? then None else Some([FromFields(fs.value)] + more.value)
  }

  function ReadDb(text: CString): Option<seq<Row>> { ReadFrom(text, BUFSIZE) }

  /** Rows that survive a trip through the file. */
  predicate IsClean(r: Row) {
    && (forall i :: 0 <= i < DB_NUMBER ==> NEWLINE !in Fields(r)[i])
    && OnlyLastEndsInBackslash(Fields(r))
    && (r.typ == [] || r.typ[0] != HASH_SIGN)
  }

  predicate AllClean(rows: seq<Row>) { forall i :: 0 <= i < |rows| ==> IsClean(rows[i]) }

  lemma NewlineAfter(line: seq<byte>, rest: seq<byte>)
    requires NEWLINE !in line
    ensures var s := line + [NEWLINE] + rest;
            NewlineAt(s) == |line| < |s| && s[..|line|] == line && s[|line| + 1..] == rest
  {
    var s := line + [NEWLINE] + rest;
    var i := NewlineAt(s);
    assert s[..Min(i, |line|)] == line[..Min(i, |line|)];
    FirstNewline(s, i, |line|);
  }

  /** There is only one first newline. */
  lemma FirstNewline(s: seq<byte>, i: nat, j: nat)
    requires i <= |s| && j < |s| && NEWLINE !in s[..i] && NEWLINE !in s[..j] && s[j] == NEWLINE
    requires i < |s| ==> s[i] == NEWLINE
    ensures i == j
  {
  }

  lemma ReadOneLine(line: CString, rest: CString, size: nat)
    requires NEWLINE !in line && line != [] && line[0] != HASH_SIGN && ReadLine(line).Some? && size >= 2
    requires ReadFrom(rest, Grown(size, |line| + 1)).Some?
    ensures ReadFrom(line + [NEWLINE] + rest, size)
         == Some([FromFields(ReadLine(line).value)] + ReadFrom(rest, Grown(size, |line| + 1)).value)
  {
    NewlineAfter(line, rest);
  }

  /** A comment that fits into the buffer is skipped; of a longer one the rest is read. */
  lemma CommentIsCut(line: CString, rest: CString, size: nat)
    requires NEWLINE !in line && line != [] && line[0] == HASH_SIGN && size >= 2
    ensures var text := line + [NEWLINE] + rest;
            ReadFrom(text, size) == ReadFrom(if |line| + 2 <= size then rest else text[size - 1..], size)
  {
    NewlineAfter(line, rest);
  }

  lemma FirstOfLine(r: Row)
    requires r.typ == [] || r.typ[0] != HASH_SIGN
    ensures Join(Fields(r)) != [] && Join(Fields(r))[0] != HASH_SIGN
  {
  }

  lemma JoinIsText(r: Row)
    requires IsClean(r)
    ensures 0 !in Join(Fields(r)) && NEWLINE !in Join(Fields(r))
  {
    JoinKeepsOut(Fields(r), 0);
    JoinKeepsOut(Fields(r), NEWLINE);
  }

  lemma RowRoundTrip(r: Row, rest: CString, size: nat)
    requires IsClean(r) && size >= 2 && ReadFrom(rest, Grown(size, |WriteLine(r)|)).Some?
    ensures 0 !in WriteLine(r)
    ensures ReadFrom(WriteLine(r) + rest, size) == Some([r] + ReadFrom(rest, Grown(size, |WriteLine(r)|)).value)
  {
    JoinIsText(r);
    FirstOfLine(r);
    LineRoundTrip(Fields(r));
    ReadOneLine(Join(Fields(r)), rest, size);
  }

  /** The file round trip: clean rows are read back as they were written. */
  lemma {:induction false} FileRoundTripFrom(rows: seq<Row>, size: nat)
    requires AllClean(rows) && size >= 2
    ensures 0 !in WriteDb(rows) && ReadFrom(WriteDb(rows), size) == Some(rows)
    decreases |rows|
  {
    if rows != [] {
      FileRoundTripFrom(rows[1..], Grown(size, |WriteLine(rows[0])|));
      RowRoundTrip(rows[0], WriteDb(rows[1..]), size);
      assert rows == [rows[0]] + rows[1..];
    }
  }

  lemma FileRoundTrip(rows: seq<Row>)
    requires AllClean(rows)
    ensures 0 !in WriteDb(rows) && ReadDb(WriteDb(rows)) == Some(rows)
  {
    FileRoundTripFrom(rows, BUFSIZE);
  }

  lemma OneMoreClean(r: Row, rows: seq<Row>)
    requires IsClean(r) && AllClean(rows)
    ensures AllClean([r] + rows)
  {
  }

  /** Whatever is read from a file can be written back. */
  lemma {:induction false} ReadFromIsClean(text: CString, size: nat)
    requires size >= 2 && ReadFrom(text, size).Some?
    ensures AllClean(ReadFrom(text, size).value)
    decreases |text|
  {
    var i := NewlineAt(text);
    if text != [] {
      if text[0] == HASH_SIGN {
        ReadFromIsClean(text[Min(Min(i + 1, |text|), size - 1)..], size);
      } else if i < |text| {
        ReadFromIsClean(text[i + 1..], Grown(size, i + 1));
        ReadLineIsClean(text[..i]);
        OneMoreClean(FromFields(ReadLine(text[..i]).value), ReadFrom(text[i + 1..], Grown(size, i + 1)).value);
      }
    }
  }

  lemma ReadRowsAreClean(text: CString)
    requires ReadDb(text).Some?
    ensures AllClean(ReadDb(text).value)
  {
    ReadFromIsClean(text, BUFSIZE);
  }

  lemma ReadLineIsClean(line: CString)
    requires NEWLINE !in line && ReadLine(line).Some? && !(line != [] && line[0] == HASH_SIGN)
    ensures IsClean(FromFields(ReadLine(line).value))
  {
    SplitKeepsOut(line, [], NEWLINE);
    SplitNeverEndsInBackslash(line, []);
    FirstField(line, [], HASH_SIGN);
  }

  /** The first field starts with the first character of the line, or with a tab. */
  lemma {:induction false} FirstField(line: seq<byte>, cur: seq<byte>, c: byte)
    requires c != TAB && (if cur == [] then line == [] || line[0] != c else cur[0] != c)
    ensures var f := SplitLine(line, cur)[0]; f == [] || f[0] != c
    decreases |line|
  {
    if line != [] {
      if line[0] == TAB {
        if EndsInBackslash(cur) { FirstField(line[1..], cur[..|cur| - 1] + [TAB], c); }
      } else {
        FirstField(line[1..], cur + [line[0]], c);
      }
    }
  }
}

/** The checks of the string types in the name of a request, with the corrections that
    `-msie_hack` makes to the entries in place. */
module NameCheck {
  import opened Bytes
  import opened Names

  const UTF8_STRING := 12
  const PRINTABLE_STRING := 19
  const T61_STRING := 20
  const IA5_STRING := 22
  const UNIVERSAL_STRING := 28
  const BMP_STRING := 30

  /** A character that a PrintableString may hold. */
  predicate IsPrintable(c: byte) {
    || 0x30 <= c <= 0x39 || 0x41 <= c <= 0x5A || 0x61 <= c <= 0x7A
    || c == 0x20 || 0x27 <= c <= 0x29 || 0x2B <= c <= 0x2F || c == 0x3A || c == 0x3D || c == 0x3F
  }

  predicate AllPrintable(s: seq<byte>) { forall i :: 0 <= i < |s| ==> IsPrintable(s[i]) }

  predicate AllAscii(s: seq<byte>) { forall i :: 0 <= i < |s| ==> s[i] < 128 }

  /** The narrowest of three types that holds the characters. */
  function PrintableType(s: seq<byte>): int {
    if !AllAscii(s) then T61_STRING else if !AllPrintable(s) then IA5_STRING else PRINTABLE_STRING
  }

  /** `ASN1_PRINTABLE_type` */
  method FindPrintableType(s: seq<byte>) returns (t: int)
    ensures t == PrintableType(s)
  {
    var ia5, t61 := false, false;
    for i := 0 to |s|
      invariant ia5 <==> !AllPrintable(s[..i])
      invariant t61 <==> !AllAscii(s[..i])
    {
      assert s[..i + 1] == s[..i] + [s[i]];
      assert s[..i + 1][i] == s[i] && forall k :: 0 <= k < i ==> s[..i + 1][k] == s[..i][k];
      if !IsPrintable(s[i]) {
        ia5 := true;
      }
      if s[i] >= 128 {
        t61 := true;
      }
    }
    assert s[..|s|] == s;
    t := if t61 then T61_STRING else if ia5 then IA5_STRING else PRINTABLE_STRING;
  }

  /** Characters of four bytes that need only the last of them. */
  predicate IsNarrow(s: seq<byte>)
    decreases |s|
  {
    |s| % 4 == 0 && (s == [] || (s[0] == s[1] == s[2] == 0 && IsNarrow(s[4..])))
  }

  function Narrow(s: seq<byte>): (t: seq<byte>)
    requires |s| % 4 == 0
    decreases |s|
  {
    if s == [] then [] else [s[3]] + Narrow(s[4..])
  }

  /** What `-msie_hack` makes of an entry. */
  function Corrected(e: Entry): Entry {
    var d := if e.strType == UNIVERSAL_STRING && IsNarrow(e.data)
             then Entry(e.obj, PrintableType(Narrow(e.data)), Narrow(e.data)) else e;
    if d.strType == IA5_STRING && d.obj != EMAIL_ADDRESS then d.(strType := T61_STRING)
    else if d.strType == PRINTABLE_STRING && d.obj == EMAIL_ADDRESS then d.(strType := IA5_STRING)
    else d
  }

  function Adjusted(msieHack: bool, e: Entry): Entry { if msieHack then Corrected(e) else e }

  function AdjustedName(msieHack: bool, name: seq<Entry>): (r: seq<Entry>)
    ensures |r| == |name|
  {
    seq(|name|, i requires 0 <= i < |name| => Adjusted(msieHack, name[i]))
  }

  /** An entry is let pass: an address that is left out anyway, or a string whose type allows
      its characters, which for an address must be an IA5String. */
  predicate Passes(emailDn: bool, e: Entry) {
    || (e.obj == EMAIL_ADDRESS && !emailDn)
    || ((e.obj == EMAIL_ADDRESS ==> e.strType == IA5_STRING) && AllowsItsCharacters(e))
  }

  /** Only the narrow types are looked at: a PrintableString must be printable, and whatever
      is not one of the wide types must be ASCII. */
  predicate AllowsItsCharacters(e: Entry) {
    || e.strType == BMP_STRING || e.strType == UTF8_STRING || e.strType == T61_STRING
    || (AllAscii(e.data) && (e.strType == PRINTABLE_STRING ==> AllPrintable(e.data)))
  }

  predicate NamePasses(emailDn: bool, name: seq<Entry>) { forall i :: 0 <= i < |name| ==> Passes(emailDn, name[i]) }

  lemma PrintableIsAscii(s: seq<byte>)
    requires AllPrintable(s)
    ensures AllAscii(s)
  {
  }

  lemma FourMore(s: seq<byte>, i: nat)
    requires |s| % 4 == 0 && i % 4 == 0 && i < |s|
    ensures i + 4 <= |s| && |s[i..]| % 4 == 0 && |s[i + 4..]| % 4 == 0
    ensures IsNarrow(s[i..]) <==> s[i] == s[i + 1] == s[i + 2] == 0 && IsNarrow(s[i + 4..])
    ensures Narrow(s[i..]) == [s[i + 3]] + Narrow(s[i + 4..])
  {
    assert s[i..][4..] == s[i + 4..];
  }

  /** `ASN1_UNIVERSALSTRING_to_string`, on the data. */
  method ToNarrow(s: seq<byte>) returns (t: Option<seq<byte>>)
    ensures t == if IsNarrow(s) then Some(Narrow(s)) else None
  {
    if |s| % 4 != 0 {
      return None;
    }
    var i := 0;
    assert s[0..] == s;
    while i < |s|
      invariant 0 <= i <= |s| && i % 4 == 0 && (IsNarrow(s) <==> IsNarrow(s[i..]))
    {
      FourMore(s, i);
      if s[i] != 0 || s[i + 1] != 0 || s[i + 2] != 0 {
        return None;
      }
      i := i + 4;
    }
    var last := LastOfFour(s);
    t := Some(last);
  }

  /** Its second loop. */
  method LastOfFour(s: seq<byte>) returns (r: seq<byte>)
    requires |s| % 4 == 0
    ensures r == Narrow(s)
  {
    r := [];
    var i := 0;
    assert s[0..] == s;
    while i < |s|
      invariant 0 <= i <= |s| && i % 4 == 0 && r + Narrow(s[i..]) == Narrow(s)
    {
      FourMore(s, i);
      assert r + ([s[i + 3]] + Narrow(s[i + 4..])) == r + [s[i + 3]] + Narrow(s[i + 4..]);
      r := r + [s[i + 3]];
      i := i + 4;
    }
  }

  /** One entry: the corrections, and the checks. */
  method CheckEntry(msieHack: bool, emailDn: bool, e: Entry) returns (d: Entry, ok: bool)
    ensures d == Adjusted(msieHack, e) && (ok <==> Passes(emailDn, d))
  {
    d := e;
    if msieHack {
      if d.strType == UNIVERSAL_STRING {
        var t := ToNarrow(d.data);
        if t.Some? {
          var strType := FindPrintableType(t.value);
          d := Entry(d.obj, strType, t.value);
        }
      }
      if d.strType == IA5_STRING && d.obj != EMAIL_ADDRESS {
        d := d.(strType := T61_STRING);
      }
      if d.obj == EMAIL_ADDRESS && d.strType == PRINTABLE_STRING {
        d := d.(strType := IA5_STRING);
      }
    }
    ok := true;
    if d.obj == EMAIL_ADDRESS && !emailDn {
      return;
    }
    if d.obj == EMAIL_ADDRESS && d.strType != IA5_STRING {
      ok := false;
      return;
    }
    if d.strType != BMP_STRING && d.strType != UTF8_STRING {
      var j := FindPrintableType(d.data);
      ok := !((j == T61_STRING && d.strType != T61_STRING) || (j == IA5_STRING && d.strType == PRINTABLE_STRING));
    }
    if AllPrintable(d.data) { PrintableIsAscii(d.data); }
  }

  /** The loop of `do_body` over the entries of the request's name. */
  method CheckName(msieHack: bool, emailDn: bool, name: X509Name) returns (ok: bool)
    modifies name
    ensures ok <==> NamePasses(emailDn, AdjustedName(msieHack, old(name.entries)))
    ensures ok ==> name.entries == AdjustedName(msieHack, old(name.entries))
  {
    ghost var before, after := name.entries, AdjustedName(msieHack, name.entries);
    for i := 0 to |name.entries|
      invariant |name.entries| == |before|
      invariant forall k :: 0 <= k < i ==> name.entries[k] == after[k]
      invariant forall k :: i <= k < |before| ==> name.entries[k] == before[k]
      invariant forall k :: 0 <= k < i ==> Passes(emailDn, after[k])
    {
      var d;
      d, ok := CheckEntry(msieHack, emailDn, name.entries[i]);
      assert d == after[i];
      name.entries := name.entries[i := d];
      if !ok {
        return;
      }
    }
    ok := true;
  }

  /** A name that passes as it is still passes after the corrections. */
  lemma CorrectionsDoNoHarm(emailDn: bool, e: Entry)
    requires Passes(emailDn, e)
    ensures Passes(emailDn, Corrected(e))
  {
  }
}

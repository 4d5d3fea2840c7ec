/** Distinguished names: lists of entries that are searched by type, appended to, and
    deleted from in place (`crypto/x509/x509name.c`). */
module Names {
  import opened Bytes

  /** An object identifier, by its number. */
  type Oid = nat

  const UNDEF: Oid := 0
  const EMAIL_ADDRESS: Oid := 48

  datatype Entry = Entry(obj: Oid, strType: int, data: seq<byte>)

  /** The entries of one type, in order. */
  function EntriesOf(name: seq<Entry>, obj: Oid): (es: seq<Entry>)
    ensures |es| <= |name|
  {
    if name == [] then []
    else
      var last := name[|name| - 1];
      EntriesOf(name[..|name| - 1], obj) + if last.obj == obj then [last] else []
  }

  /** The entries of all other types, in order. */
  function Without(name: seq<Entry>, obj: Oid): (es: seq<Entry>)
    ensures |es| <= |name|
  {
    if name == [] then []
    else
      var last := name[|name| - 1];
      Without(name[..|name| - 1], obj) + if last.obj == obj then [] else [last]
  }

  predicate Lacks(name: seq<Entry>, obj: Oid) { forall i :: 0 <= i < |name| ==> name[i].obj != obj }

  lemma {:induction false} EntriesOfAppend(a: seq<Entry>, b: seq<Entry>, obj: Oid)
    ensures EntriesOf(a + b, obj) == EntriesOf(a, obj) + EntriesOf(b, obj)
    decreases |b|
  {
    if b == [] {
      assert a + b == a;
    } else {
      var n := |b| - 1;
      assert (a + b)[..|a| + n] == a + b[..n];
      EntriesOfAppend(a, b[..n], obj);
    }
  }

  lemma {:induction false} WithoutAppend(a: seq<Entry>, b: seq<Entry>, obj: Oid)
    ensures Without(a + b, obj) == Without(a, obj) + Without(b, obj)
    decreases |b|
  {
    if b == [] {
      assert a + b == a;
    } else {
      var n := |b| - 1;
      assert (a + b)[..|a| + n] == a + b[..n];
      WithoutAppend(a, b[..n], obj);
    }
  }

  lemma {:induction false} LackingEntries(name: seq<Entry>, obj: Oid)
    requires Lacks(name, obj)
    ensures EntriesOf(name, obj) == [] && Without(name, obj) == name
  {
    if name != [] {
      var n := |name| - 1;
      LackingEntries(name[..n], obj);
      assert name == name[..n] + [name[n]];
    }
  }

  lemma {:induction false} EntriesAreOfType(name: seq<Entry>, obj: Oid)
    ensures forall i :: 0 <= i < |EntriesOf(name, obj)| ==> EntriesOf(name, obj)[i].obj == obj
    ensures forall e :: e in EntriesOf(name, obj) <==> e in name && e.obj == obj
  {
    if name != [] {
      EntriesAreOfType(name[..|name| - 1], obj);
      assert name == name[..|name| - 1] + [name[|name| - 1]];
    }
  }

  /** Taking one type out leaves nothing of it, and everything of the others. */
  lemma {:induction false} WithoutKeepsOthers(name: seq<Entry>, obj: Oid, other: Oid)
    ensures EntriesOf(Without(name, obj), other) == if other == obj then [] else EntriesOf(name, other)
  {
    if name != [] {
      var n := |name| - 1;
      WithoutKeepsOthers(name[..n], obj, other);
      var tail := if name[n].obj == obj then [] else [name[n]];
      EntriesOfAppend(Without(name[..n], obj), tail, other);
      assert tail != [] ==> tail[..0] == [] && EntriesOf(tail[..0], other) == [];
    }
  }

  /** Skipping entries of other types. */
  lemma SkipOthers(name: seq<Entry>, obj: Oid, from: nat, to: nat)
    requires from <= to <= |name| && Lacks(name[from..to], obj)
    ensures EntriesOf(name[..to], obj) == EntriesOf(name[..from], obj)
  {
    assert name[..to] == name[..from] + name[from..to];
    EntriesOfAppend(name[..from], name[from..to], obj);
    LackingEntries(name[from..to], obj);
  }

  class X509Name {
    var entries: seq<Entry>

    constructor (entries: seq<Entry>)
      ensures this.entries == entries
    {
      this.entries := entries;
    }

    /** The first entry of a type behind `lastpos`, or -1. */
    method GetIndexByObj(obj: Oid, lastpos: int) returns (j: int)
      ensures j == -1 || (Max(lastpos, -1) < j < |entries| && entries[j].obj == obj)
      ensures var from, to := Max(lastpos, -1) + 1, if j < 0 then |entries| else j;
              from <= to ==> Lacks(entries[from..to], obj)
    {
      j := Max(lastpos, -1) + 1;
      ghost var from := j;
      while j < |entries|
        invariant from <= j && (from <= |entries| ==> j <= |entries| && Lacks(entries[from..j], obj))
      {
        if entries[j].obj == obj {
          return;
        }
        assert entries[from..j + 1] == entries[from..j] + [entries[j]];
        j := j + 1;
      }
      j := -1;
    }

    /** `X509_NAME_add_entry(name, ne, -1, 0)` */
    method AddEntry(ne: Entry)
      modifies this
      ensures entries == old(entries) + [ne]
    {
      entries := entries + [ne];
    }

    /** The entries behind the deleted one move up by one place. */
    method DeleteEntry(loc: nat)
      requires loc < |entries|
      modifies this
      ensures |entries| == |old(entries)| - 1
      ensures forall i :: 0 <= i < loc ==> entries[i] == old(entries)[i]
      ensures forall i :: loc <= i < |entries| ==> entries[i] == old(entries)[i + 1]
    {
      var n := |entries| - 1;
      for i := loc to n
        invariant |entries| == n + 1
        invariant forall k :: 0 <= k < loc || i <= k <= n ==> entries[k] == old(entries)[k]
        invariant forall k :: loc <= k < i ==> entries[k] == old(entries)[k + 1]
      {
        entries := entries[i := entries[i + 1]];
      }
      entries := entries[..n];
    }
  }

  function Max(a: int, b: int): int { if a >= b then a else b }

  lemma DropOne(head: seq<Entry>, e: Entry, tail: seq<Entry>, obj: Oid)
    requires e.obj == obj
    ensures Without(head + [e] + tail, obj) == Without(head + tail, obj)
  {
    var one := head + [e];
    assert one[..|head|] == head && Without(one, obj) == Without(head, obj);
    WithoutAppend(one, tail, obj);
    WithoutAppend(head, tail, obj);
  }

  /** A deletion takes one entry of its own type, and leaves every other type alone. */
  lemma DeleteTakesOne(name: seq<Entry>, j: nat, obj: Oid)
    requires j < |name|
    ensures var rest := name[..j] + name[j + 1..];
            if name[j].obj == obj then
              |EntriesOf(rest, obj)| == |EntriesOf(name, obj)| - 1 && Without(rest, obj) == Without(name, obj)
            else EntriesOf(rest, obj) == EntriesOf(name, obj)
  {
    var head, one, tail := name[..j], name[..j + 1], name[j + 1..];
    assert name == one + tail && one[..j] == head && name == head + [name[j]] + tail;
    EntriesOfAppend(one, tail, obj);
    EntriesOfAppend(head, tail, obj);
    if name[j].obj == obj { DropOne(head, name[j], tail, obj); }
  }

  method DeleteOne(dn: X509Name, loc: nat)
    requires loc < |dn.entries|
    modifies dn
    ensures |dn.entries| == |old(dn.entries)| - 1 && dn.entries[..loc] == old(dn.entries)[..loc]
    ensures Without(dn.entries, old(dn.entries)[loc].obj) == Without(old(dn.entries), old(dn.entries)[loc].obj)
  {
    ghost var head, tail := dn.entries[..loc], dn.entries[loc + 1..];
    DeleteTakesOne(dn.entries, loc, dn.entries[loc].obj);
    dn.DeleteEntry(loc);
    assert dn.entries == head + tail;
  }

  /** The removal of all e-mail addresses from a subject. The search goes on one place before
      the deleted entry, so that neighbours and an entry at the front are not missed. */
  method RemoveEmail(dn: X509Name)
    modifies dn
    ensures dn.entries == Without(old(dn.entries), EMAIL_ADDRESS)
  {
    var i := dn.GetIndexByObj(EMAIL_ADDRESS, -1);
    ghost var clean := if i >= 0 then i else |dn.entries|;
    assert dn.entries[0..clean] == dn.entries[..clean];
    while i >= 0
      invariant clean <= |dn.entries| && Lacks(dn.entries[..clean], EMAIL_ADDRESS)
      invariant if i >= 0 then i == clean < |dn.entries| && dn.entries[i].obj == EMAIL_ADDRESS
                else clean == |dn.entries|
      invariant Without(dn.entries, EMAIL_ADDRESS) == Without(old(dn.entries), EMAIL_ADDRESS)
      decreases |dn.entries|
    {
      ghost var head := dn.entries[..i];
      DeleteOne(dn, i);
      i := i - 1;
      ghost var from := i + 1;
      i := dn.GetIndexByObj(EMAIL_ADDRESS, i);
      clean := if i >= 0 then i else |dn.entries|;
      assert dn.entries[..clean] == head + dn.entries[from..clean];
    }
    assert dn.entries[..clean] == dn.entries;
    LackingEntries(dn.entries, EMAIL_ADDRESS);
  }
}

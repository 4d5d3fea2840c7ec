/** Times as texts, digit by digit: what is printed for a time, and that the two checks take
    exactly the texts of real times. */
module TimeTexts {
  import opened Arith
  import opened Asn1Time
  import opened Bytes

  const MONTH_LENGTHS: seq<nat> := [31, 28, 31, 30, 31, 30, 31, 31, 30, 31, 30, 31]

  lemma DaysExactly(year: nat, month: nat)
    requires 1 <= month <= 12
    ensures DaysIn(year, month) == MONTH_LENGTHS[month - 1]
              + if month == 2 && (year % 400 == 0 || (year % 4 == 0 && year % 100 != 0)) then 1 else 0
  {
  }

  /** Two decimal digits. */
  function Pair(n: nat): (s: CString)
    requires n <= 99
    ensures |s| == 2
  {
    [48 + n / 10, 48 + n % 10]
  }

  /** Month, day, hour and minute. */
  function Stamp(t: Tm): (s: CString)
    requires IsTime(t)
    ensures |s| == 8
  {
    [48 + t.month / 10, 48 + t.month % 10, 48 + t.day / 10, 48 + t.day % 10,
     48 + t.hour / 10, 48 + t.hour % 10, 48 + t.minute / 10, 48 + t.minute % 10]
  }

  /** The present is printed with two digits of the year from 1950 to 2049, and with four
      otherwise; always with seconds and in universal time. */
  lemma PrintedTime(t: Tm)
    requires IsTime(t)
    ensures TimeText(t) == (if 1950 <= t.year <= 2049 then Pair(t.year % 100)
                            else Pair(t.year / 100) + Pair(t.year % 100))
                           + Stamp(t) + Pair(t.second) + [0x5A]
  {
    assert DateText(t) == Stamp(t) + Pair(t.second) + [0x5A];
  }

  // ---------- what the checks take ----------

  predicate AreDigits(s: seq<byte>) { forall i :: 0 <= i < |s| ==> 48 <= s[i] <= 57 }

  /** "Z", or a sign with hours up to 12 and minutes. */
  predicate IsZoneText(z: seq<byte>) {
    || z == [0x5A]
    || (|z| == 5 && (z[0] == 0x2B || z[0] == 0x2D) && AreDigits(z[1..])
        && 10 * (z[1] - 48) + (z[2] - 48) <= 12 && 10 * (z[3] - 48) + (z[4] - 48) <= 59)
  }

  /** What may follow the minutes: seconds or none, and the zone. */
  predicate IsShortEnd(t: Tm, end: seq<byte>)
    requires IsTime(t)
  {
    (IsZoneText(end) && t.second == 0) || (|end| > 2 && end[..2] == Pair(t.second) && IsZoneText(end[2..]))
  }

  /** The same, where seconds may have a fraction of at least one digit. */
  predicate IsLongEnd(t: Tm, end: seq<byte>)
    requires IsTime(t)
  {
    IsShortEnd(t, end) || exists k :: 3 < k < |end| && HasFraction(t, end, k)
  }

  predicate HasFraction(t: Tm, end: seq<byte>, k: int)
    requires IsTime(t)
  {
    && 3 < k < |end| && end[..2] == Pair(t.second) && end[2] == 0x2E
    && AreDigits(end[3..k]) && IsZoneText(end[k..])
  }

  lemma ZoneExactly(s: seq<byte>, o: nat)
    requires o < |s|
    ensures ZoneOk(s, o) <==> IsZoneText(s[o..])
  {
    var z := s[o..];
    assert z[0] == s[o];
    if |z| == 5 {
      assert z[1] == s[o + 1] && z[2] == s[o + 2] && z[3] == s[o + 3] && z[4] == s[o + 4];
      assert AreDigits(z[1..]) <==> forall i :: 1 <= i < 5 ==> 48 <= z[i] <= 57 by {
        assert forall i :: 0 <= i < 4 ==> z[1..][i] == z[i + 1];
        assert forall i :: 1 <= i < 5 ==> z[i] == z[1..][i - 1];
      }
    }
  }

  lemma TwoDigits(n: nat, a: byte, b: byte)
    requires n <= 99 && a == 48 + n / 10 && b == 48 + n % 10
    ensures IsAsciiDigit(a) && IsAsciiDigit(b) && 10 * (a - 0x30) + (b - 0x30) == n
  {
  }

  lemma StampAt(head: seq<byte>, t: Tm, end: seq<byte>)
    requires IsTime(t)
    ensures DateOk(head + Stamp(t) + end, |head|, t.year)
  {
    var s, o := head + Stamp(t) + end, |head|;
    assert s[o] == 48 + t.month / 10 && s[o + 1] == 48 + t.month % 10;
    assert s[o + 2] == 48 + t.day / 10 && s[o + 3] == 48 + t.day % 10;
    assert s[o + 4] == 48 + t.hour / 10 && s[o + 5] == 48 + t.hour % 10;
    assert s[o + 6] == 48 + t.minute / 10 && s[o + 7] == 48 + t.minute % 10;
    TwoDigits(t.month, s[o], s[o + 1]);
    TwoDigits(t.day, s[o + 2], s[o + 3]);
    TwoDigits(t.hour, s[o + 4], s[o + 5]);
    TwoDigits(t.minute, s[o + 6], s[o + 7]);
  }

  lemma PairOfField(s: seq<byte>, o: nat)
    requires o + 2 <= |s| && Field(s, o) >= 0
    ensures s[o..o + 2] == Pair(Field(s, o))
  {
  }

  lemma StampOf(s: seq<byte>, o: nat, year: nat, second: nat) returns (t: Tm)
    requires o + 8 <= |s| && DateOk(s, o, year) && year <= 9999 && second <= 59
    ensures IsTime(t) && t.year == year && t.second == second && s[o..o + 8] == Stamp(t)
  {
    t := Tm(year, Field(s, o), Field(s, o + 2), Field(s, o + 4), Field(s, o + 6), second);
    PairOfField(s, o);
    PairOfField(s, o + 2);
    PairOfField(s, o + 4);
    PairOfField(s, o + 6);
    var a := s[o..o + 8];
    assert a[0] == s[o..o + 2][0] && a[1] == s[o..o + 2][1] && a[2] == s[o + 2..o + 4][0] && a[3] == s[o + 2..o + 4][1];
    assert a[4] == s[o + 4..o + 6][0] && a[5] == s[o + 4..o + 6][1];
    assert a[6] == s[o + 6..o + 8][0] && a[7] == s[o + 6..o + 8][1];
  }

  /** Behind the minutes, where no fraction is taken. */
  predicate EndOk(s: seq<byte>, o: nat)
    requires o + 2 < |s|
  {
    if IsZone(s[o]) then ZoneOk(s, o) else 0 <= Field(s, o) <= 59 && ZoneOk(s, o + 2)
  }

  lemma EndTaken(s: seq<byte>, o: nat, t: Tm)
    requires o + 2 < |s| && IsTime(t) && IsShortEnd(t, s[o..])
    ensures EndOk(s, o)
  {
    var end := s[o..];
    ZoneExactly(s, o);
    ZoneExactly(s, o + 2);
    assert end[2..] == s[o + 2..] && end[0] == s[o] && end[1] == s[o + 1];
    if end[..2] == Pair(t.second) {
      assert end[..2][0] == s[o] && end[..2][1] == s[o + 1];
      TwoDigits(t.second, s[o], s[o + 1]);
    }
  }

  /** The seconds, or zero without them. */
  function SecondAt(s: seq<byte>, o: nat): (n: int)
    requires o + 2 <= |s|
    ensures n <= 99
  {
    if IsZone(s[o]) then 0 else Field(s, o)
  }

  lemma EndRead(s: seq<byte>, o: nat, t: Tm)
    requires o + 2 < |s| && EndOk(s, o) && IsTime(t) && t.second == SecondAt(s, o)
    ensures IsShortEnd(t, s[o..])
  {
    if IsZone(s[o]) {
      ZoneExactly(s, o);
    } else {
      ZoneExactly(s, o + 2);
      PairOfField(s, o);
      assert s[o..][..2] == s[o..o + 2] && s[o..][2..] == s[o + 2..];
    }
  }

  lemma PairOfYear(year: nat)
    requires 1950 <= year <= 2049
    ensures UtcYear(year % 100) == year
  {
  }

  /** The text of a time in the years 1950 to 2049 is taken, with or without seconds, if it has
      at least 13 characters. */
  lemma {:induction false} TakesUtc(t: Tm, end: seq<byte>)
    requires IsTime(t) && 1950 <= t.year <= 2049 && IsShortEnd(t, end) && |end| >= 3
    ensures UtcOk(Pair(t.year % 100) + Stamp(t) + end)
  {
    var head := Pair(t.year % 100);
    var s := head + Stamp(t) + end;
    StampAt(head, t, end);
    assert s[10..] == end && s[0] == head[0] && s[1] == head[1];
    TwoDigits(t.year % 100, s[0], s[1]);
    PairOfYear(t.year);
    EndTaken(s, 10, t);
  }

  lemma YearOfPair(n: nat)
    requires n <= 99
    ensures 1950 <= UtcYear(n) <= 2049 && UtcYear(n) % 100 == n
  {
  }

  /** Nothing else is. */
  lemma {:induction false} OnlyUtc(s: seq<byte>) returns (t: Tm, end: seq<byte>)
    requires UtcOk(s)
    ensures IsTime(t) && 1950 <= t.year <= 2049 && IsShortEnd(t, end) && |end| >= 3
    ensures s == Pair(t.year % 100) + Stamp(t) + end
  {
    var n := Field(s, 0);
    YearOfPair(n);
    t := StampOf(s, 2, UtcYear(n), SecondAt(s, 10));
    end := s[10..];
    assert IsShortEnd(t, end) by {
      assert EndOk(s, 10);
      EndRead(s, 10, t);
    }
    PairOfField(s, 0);
    InThree(s, Pair(n), Stamp(t));
  }

  lemma InThree(s: seq<byte>, a: seq<byte>, b: seq<byte>)
    requires |s| >= 10 && s[0..2] == a && s[2..10] == b
    ensures s == a + b + s[10..]
  {
  }

  lemma {:induction false} RunOfDigits(s: seq<byte>, o: nat, k: nat)
    requires o <= k < |s| && AreDigits(s[o..k]) && !IsAsciiDigit(s[k])
    ensures DigitRun(s, o) == k
    decreases k - o
  {
    if o < k {
      assert s[o..k][0] == s[o] && s[o + 1..k] == s[o..k][1..];
      RunOfDigits(s, o + 1, k);
    }
  }

  /** Behind the minutes, where a fraction of the seconds is taken. */
  predicate LongEndOk(s: seq<byte>, o: nat)
    requires o + 2 < |s|
  {
    if IsZone(s[o]) then ZoneOk(s, o) else 0 <= Field(s, o) <= 59 && FractionOk(s, o + 2)
  }

  lemma FractionTaken(s: seq<byte>, o: nat, t: Tm, k: nat)
    requires o + 3 < k < |s| && IsTime(t) && s[o..o + 2] == Pair(t.second) && s[o + 2] == 0x2E
    requires AreDigits(s[o + 3..k]) && IsZoneText(s[k..])
    ensures LongEndOk(s, o)
  {
    assert s[o] == s[o..o + 2][0] && s[o + 1] == s[o..o + 2][1] && s[k] == s[k..][0];
    TwoDigits(t.second, s[o], s[o + 1]);
    ZoneExactly(s, k);
    RunOfDigits(s, o + 3, k);
  }

  lemma {:induction false} FractionInEnd(s: seq<byte>, o: nat, t: Tm, k: nat)
    requires o + 2 < |s| && IsTime(t) && HasFraction(t, s[o..], k)
    ensures LongEndOk(s, o)
  {
    var end := s[o..];
    assert s[o..o + 2] == end[..2];
    assert s[o + 3..o + k] == end[3..k];
    assert s[o + k..] == end[k..];
    FractionTaken(s, o, t, o + k);
  }

  lemma {:induction false} LongEndTaken(s: seq<byte>, o: nat, t: Tm)
    requires o + 2 < |s| && IsTime(t) && IsLongEnd(t, s[o..])
    ensures LongEndOk(s, o)
  {
    var end := s[o..];
    if IsShortEnd(t, end) {
      EndTaken(s, o, t);
      ShortIsLong(s, o);
    } else {
      var k :| 3 < k < |end| && HasFraction(t, end, k);
      FractionInEnd(s, o, t, k);
    }
  }

  lemma ShortIsLong(s: seq<byte>, o: nat)
    requires o + 2 < |s| && EndOk(s, o)
    ensures LongEndOk(s, o)
  {
  }

  lemma LongEndRead(s: seq<byte>, o: nat, t: Tm)
    requires o + 2 < |s| && LongEndOk(s, o) && IsTime(t) && t.second == SecondAt(s, o)
    ensures IsLongEnd(t, s[o..])
  {
    if !IsZone(s[o]) && s[o + 2] == PERIOD {
      var k, end := DigitRun(s, o + 3), s[o..];
      PairOfField(s, o);
      ZoneExactly(s, k);
      assert end[..2] == s[o..o + 2] && end[3..k - o] == s[o + 3..k] && end[k - o..] == s[k..];
      assert HasFraction(t, end, k - o);
    } else {
      EndRead(s, o, t);
    }
  }

  /** The text of a time is taken as a GeneralizedTime, with four digits of the year, with or
      without seconds and a fraction of them, if it has at least 15 characters. */
  lemma TakesGeneralized(t: Tm, end: seq<byte>)
    requires IsTime(t) && IsLongEnd(t, end) && |end| >= 3
    ensures GeneralizedOk(Pair(t.year / 100) + Pair(t.year % 100) + Stamp(t) + end)
  {
    var head := Pair(t.year / 100) + Pair(t.year % 100);
    var s := head + Stamp(t) + end;
    StampAt(head, t, end);
    assert s[12..] == end && s[0] == head[0] && s[1] == head[1] && s[2] == head[2] && s[3] == head[3];
    TwoDigits(t.year / 100, s[0], s[1]);
    TwoDigits(t.year % 100, s[2], s[3]);
    LongEndTaken(s, 12, t);
  }

  /** Nothing else is. */
  lemma OnlyGeneralized(s: seq<byte>) returns (t: Tm, end: seq<byte>)
    requires GeneralizedOk(s)
    ensures IsTime(t) && IsLongEnd(t, end) && |end| >= 3
    ensures s == Pair(t.year / 100) + Pair(t.year % 100) + Stamp(t) + end
  {
    end := s[12..];
    assert LongEndOk(s, 12);
    var year := 100 * Field(s, 0) + Field(s, 2);
    t := StampOf(s, 4, year, SecondAt(s, 12));
    LongEndRead(s, 12, t);
    PairOfField(s, 0);
    PairOfField(s, 2);
    DivModUnique(year, 100, Field(s, 0), Field(s, 2));
    InFour(s, Pair(t.year / 100), Pair(t.year % 100), Stamp(t));
  }

  lemma InFour(s: seq<byte>, a: seq<byte>, b: seq<byte>, c: seq<byte>)
    requires |s| >= 12 && s[0..2] == a && s[2..4] == b && s[4..12] == c
    ensures s == a + b + c + s[12..]
  {
  }
}

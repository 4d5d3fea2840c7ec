/** The text forms of ASN.1 times, as far as the certificate database depends on them
    (`crypto/asn1/a_time.c`): which texts are accepted, and which text "now" becomes. */
module Asn1Time {
  import opened Bytes

  const UPPER_Z: byte := 0x5A
  const PLUS: byte := 0x2B
  const MINUS: byte := 0x2D
  const PERIOD: byte := 0x2E

  predicate IsAsciiDigit(c: byte) { 0x30 <= c <= 0x39 }

  /** The two-digit number at place `o`, or -1. */
  function Field(s: seq<byte>, o: nat): (n: int)
    requires o + 2 <= |s|
    ensures -1 <= n <= 99
    ensures n >= 0 <==> IsAsciiDigit(s[o]) && IsAsciiDigit(s[o + 1])
  {
    if IsAsciiDigit(s[o]) && IsAsciiDigit(s[o + 1]) then 10 * (s[o] - 0x30) + (s[o + 1] - 0x30) else -1
  }

  predicate IsLeapYear(year: nat) { year % 400 == 0 || (year % 100 != 0 && year % 4 == 0) }

  function DaysIn(year: nat, month: nat): (n: nat)
    ensures 28 <= n <= 31
  {
    if month == 2 then (if IsLeapYear(year) then 29 else 28)
    else if month == 4 || month == 6 || month == 9 || month == 11 then 30
    else 31
  }

  predicate IsZone(c: byte) { c == UPPER_Z || c == PLUS || c == MINUS }

  /** The end of a time: "Z", or an offset of hours and minutes. */
  predicate ZoneOk(s: seq<byte>, o: nat)
    requires o < |s|
  {
    if s[o] == UPPER_Z then o + 1 == |s|
    else if s[o] == PLUS || s[o] == MINUS then
      o + 5 == |s| && 0 <= Field(s, o + 1) <= 12 && 0 <= Field(s, o + 3) <= 59
    else false
  }

  /** Month, day, hour and minute from place `o` on. */
  predicate DateOk(s: seq<byte>, o: nat, year: nat)
    requires o + 8 <= |s|
  {
    && 1 <= Field(s, o) <= 12
    && 1 <= Field(s, o + 2) <= DaysIn(year, Field(s, o))
    && 0 <= Field(s, o + 4) <= 23
    && 0 <= Field(s, o + 6) <= 59
  }

  /** Years 50 to 99 of a UTCTime are in the twentieth century. */
  function UtcYear(n: nat): nat { if n < 50 then 2000 + n else 1900 + n }

  /** `ASN1_UTCTIME_set_string` */
  predicate UtcOk(s: seq<byte>) {
    && |s| >= 13
    && 0 <= Field(s, 0) && DateOk(s, 2, UtcYear(Field(s, 0)))
    && if IsZone(s[10]) then ZoneOk(s, 10) else 0 <= Field(s, 10) <= 59 && ZoneOk(s, 12)
  }

  function DigitRun(s: seq<byte>, o: nat): (n: nat)
    requires o <= |s|
    ensures o <= n <= |s| && forall i :: o <= i < n ==> IsAsciiDigit(s[i])
    decreases |s| - o
  {
    if o < |s| && IsAsciiDigit(s[o]) then DigitRun(s, o + 1) else o
  }

  /** Seconds may be followed by a period and at least one digit. */
  predicate FractionOk(s: seq<byte>, o: nat)
    requires o < |s|
  {
    if s[o] == PERIOD then
      var end := DigitRun(s, o + 1);
      end > o + 1 && end < |s| && ZoneOk(s, end)
    else ZoneOk(s, o)
  }

  /** `ASN1_GENERALIZEDTIME_set_string` */
  predicate GeneralizedOk(s: seq<byte>) {
    && |s| >= 15
    && 0 <= Field(s, 0) && 0 <= Field(s, 2) && DateOk(s, 4, 100 * Field(s, 0) + Field(s, 2))
    && if IsZone(s[12]) then ZoneOk(s, 12) else 0 <= Field(s, 12) <= 59 && FractionOk(s, 14)
  }

  /** `ASN1_TIME_set_string`, which is also `check_time_format`. */
  predicate TimeOk(s: seq<byte>) { UtcOk(s) || GeneralizedOk(s) }

  // ---------- printing ----------

  datatype Tm = Tm(year: nat, month: nat, day: nat, hour: nat, minute: nat, second: nat)

  predicate IsTime(t: Tm) {
    && t.year <= 9999 && 1 <= t.month <= 12 && 1 <= t.day <= DaysIn(t.year, t.month)
    && t.hour <= 23 && t.minute <= 59 && t.second <= 59
  }

  function Two(n: nat): (s: CString)
    requires n <= 99
    ensures |s| == 2 && Field(s, 0) == n
  {
    [0x30 + n / 10, 0x30 + n % 10]
  }

  /** "MMDDhhmmssZ" */
  function DateText(t: Tm): (s: CString)
    requires IsTime(t)
    ensures |s| == 11
  {
    Two(t.month) + Two(t.day) + Two(t.hour) + Two(t.minute) + Two(t.second) + [UPPER_Z]
  }

  predicate HasUtcForm(t: Tm) { 1950 <= t.year <= 2049 }

  function UtcText(t: Tm): (s: CString)
    requires IsTime(t)
    ensures |s| == 13
  {
    Two(t.year % 100) + DateText(t)
  }

  function GeneralizedText(t: Tm): (s: CString)
    requires IsTime(t)
    ensures |s| == 15
  {
    Two(t.year / 100) + Two(t.year % 100) + DateText(t)
  }

  /** `X509_gmtime_adj(NULL, 0)` when it is `t`: two-digit years where they suffice. */
  function TimeText(t: Tm): (s: CString)
    requires IsTime(t)
  {
    if HasUtcForm(t) then UtcText(t) else GeneralizedText(t)
  }

  lemma FieldsOfDate(head: seq<byte>, t: Tm)
    requires IsTime(t)
    ensures var s, n := head + DateText(t), |head|;
            && |s| == n + 11
            && Field(s, n) == t.month && Field(s, n + 2) == t.day && Field(s, n + 4) == t.hour
            && Field(s, n + 6) == t.minute && Field(s, n + 8) == t.second && s[n + 10] == UPPER_Z
  {
  }

  /** The text of a time is a UTCTime exactly for the years 1950 to 2049. */
  lemma TimeTextIsUtc(t: Tm)
    requires IsTime(t)
    ensures UtcOk(TimeText(t)) <==> HasUtcForm(t)
  {
    if HasUtcForm(t) {
      FieldsOfDate(Two(t.year % 100), t);
      assert UtcText(t)[0..2] == Two(t.year % 100);
      assert UtcYear(t.year % 100) == t.year;
    } else {
      var s := GeneralizedText(t);
      FieldsOfDate(Two(t.year / 100) + Two(t.year % 100), t);
      assert s == Two(t.year / 100) + Two(t.year % 100) + DateText(t);
      assert Field(s, 10) == t.minute && Field(s, 12) == t.second;
    }
  }

  /** Every time's text is accepted in one of the two forms. */
  lemma TimeTextIsTime(t: Tm)
    requires IsTime(t)
    ensures TimeOk(TimeText(t))
  {
    TimeTextIsUtc(t);
    if !HasUtcForm(t) {
      var head := Two(t.year / 100) + Two(t.year % 100);
      var s := GeneralizedText(t);
      FieldsOfDate(head, t);
      assert s == head + DateText(t);
      assert s[0..2] == Two(t.year / 100) && s[2..4] == Two(t.year % 100);
    }
  }

  // ---------- characters ----------

  predicate IsTimeChar(c: byte) { IsAsciiDigit(c) || IsZone(c) || c == PERIOD }

  predicate AllTimeChars(s: seq<byte>) { forall i :: 0 <= i < |s| ==> IsTimeChar(s[i]) }

  /** An accepted time is made of digits, signs, periods and a Z only. */
  lemma TimeIsTimeChars(s: seq<byte>)
    requires TimeOk(s)
    ensures AllTimeChars(s)
  {
  }
}

/**
  The part of the `chrono` crate that the work-time counter relies on:
  a time of day without a date (`NaiveTime`), the signed difference of two
  such times, and the textual parse `NaiveTime::from_str`.

  The crate itself is not part of this model. Its parse is stood in for by
  a recogniser of `H:M:S`, where each field is one or two decimal digits
  (read greedily, at most two), hour 0-23, minute 0-59 and second 0-59.
  Unlike the crate, it skips no whitespace: a space anywhere rejects the text.
 */
module Chrono {
  import opened Wrappers

  const SecondsPerDay: int := 86400

  /** A wall-clock time with no calendar date. */
  datatype NaiveTime = NaiveTime(hour: nat, minute: nat, second: nat) {
    predicate Valid() {
      hour < 24 && minute < 60 && second < 60
    }
  }

  /** Seconds elapsed since midnight; a valid time lies within one day. */
  function SecondsFromMidnight(t: NaiveTime): (n: int)
    ensures t.Valid() ==> 0 <= n < SecondsPerDay
  {
    t.hour * 3600 + t.minute * 60 + t.second
  }

  /** `a` is strictly earlier than `b` on the clock face, field by field. */
  predicate Before(a: NaiveTime, b: NaiveTime) {
    a.hour < b.hour
    || (a.hour == b.hour && a.minute < b.minute)
    || (a.hour == b.hour && a.minute == b.minute && a.second < b.second)
  }

  /**
    `end - start` on `NaiveTime`: a signed duration in seconds with no
    correction for a span across midnight.
   */
  function SignedDurationSince(end: NaiveTime, start: NaiveTime): (d: int)
    ensures end.Valid() && start.Valid() ==> -SecondsPerDay < d < SecondsPerDay
    ensures end.Valid() && start.Valid() ==> (d == 0 <==> end == start)
    ensures end.Valid() && start.Valid() ==> (d < 0 <==> Before(end, start))
  {
    SecondsFromMidnight(end) - SecondsFromMidnight(start)
  }

  predicate IsDigit(c: char) {
    '0' <= c <= '9'
  }

  function DigitValue(c: char): (n: nat)
    requires IsDigit(c)
    ensures n < 10
  {
    c as int - '0' as int
  }

  function DigitChar(n: nat): (c: char)
    requires n < 10
    ensures IsDigit(c) && DigitValue(c) == n
  {
    ('0' as int + n) as char
  }

  /**
    Reads a numeric field of one or two digits starting at `i`, taking two
    when two are there. Yields the value and the index just past the field.
   */
  function ScanField(s: string, i: nat): (r: Option<(nat, nat)>)
    requires i <= |s|
    ensures r.Some? <==> i < |s| && IsDigit(s[i])
    ensures r.Some? ==> i < r.value.1 <= i + 2 && r.value.1 <= |s| && r.value.0 < 100
    ensures r.Some? ==> forall k :: i <= k < r.value.1 ==> IsDigit(s[k])
    ensures r.Some? && r.value.1 == i + 1 ==> r.value.0 == DigitValue(s[i])
    ensures r.Some? && r.value.1 == i + 2 ==> r.value.0 == 10 * DigitValue(s[i]) + DigitValue(s[i + 1])
  {
    if i + 1 < |s| && IsDigit(s[i]) && IsDigit(s[i + 1]) then
      Some((10 * DigitValue(s[i]) + DigitValue(s[i + 1]), i + 2))
    else if i < |s| && IsDigit(s[i]) then
      Some((DigitValue(s[i]), i + 1))
    else
      None
  }

  /** `NaiveTime::from_str`: the whole of `s` must be `H:M:S` with in-range fields. */
  function ParseTime(s: string): (r: Option<NaiveTime>)
    ensures r.Some? ==> r.value.Valid()
  {
    match ScanField(s, 0)
    case None => None
    case Some((h, i)) =>
      if !(i < |s| && s[i] == ':') then None
      else
        match ScanField(s, i + 1)
        case None => None
        case Some((m, j)) =>
          if !(j < |s| && s[j] == ':') then None
          else
            match ScanField(s, j + 1)
            case None => None
            case Some((sec, k)) =>
              if k == |s| && h < 24 && m < 60 && sec < 60 then Some(NaiveTime(h, m, sec))
              else None
  }

  /** Writes a time as `HH:MM:SS`, two digits per field. */
  function FormatTime(t: NaiveTime): (s: string)
    requires t.Valid()
    ensures |s| == 8
  {
    [DigitChar(t.hour / 10), DigitChar(t.hour % 10), ':',
     DigitChar(t.minute / 10), DigitChar(t.minute % 10), ':',
     DigitChar(t.second / 10), DigitChar(t.second % 10)]
  }

  /** The recogniser accepts every valid time written with two digits per field. */
  lemma ParseFormatRoundTrip(t: NaiveTime)
    requires t.Valid()
    ensures ParseTime(FormatTime(t)) == Some(t)
  {
  }
}

/**
 * The strings server.js builds from numbers and URLs: `String(n)` for a
 * non-negative integer, the temp file names of one generate request
 * (server.js lines 136-138), the `padStart(2, '0')` clock of the schedule
 * check (line 354), and `url.split('/').pop()`, which recovers a file name
 * from an announcement's `audio_url` (lines 238 and 288).
 */
module Names {

  predicate IsDigit(c: char) {
    '0' <= c <= '9'
  }

  predicate AllDigits(s: string) {
    forall k :: 0 <= k < |s| ==> IsDigit(s[k])
  }

  function Digit(n: nat): (c: char)
    requires n < 10
    ensures IsDigit(c)
  {
    ('0' as int + n) as char
  }

  function DigitValue(c: char): nat
    requires IsDigit(c)
  {
    c as int - '0' as int
  }

  /** `String(n)`: decimal digits, most significant first, no leading zero. */
  function Decimal(n: nat): (r: string)
    ensures |r| > 0 && AllDigits(r)
    ensures |r| > 1 ==> r[0] != '0'
    decreases n
  {
    if n < 10 then [Digit(n)] else Decimal(n / 10) + [Digit(n % 10)]
  }

  /** Reads decimal digits back, most significant first. */
  function ParseDecimal(s: string): nat
    requires AllDigits(s)
    decreases |s|
  {
    if s == [] then 0 else 10 * ParseDecimal(s[..|s| - 1]) + DigitValue(s[|s| - 1])
  }

  lemma {:induction false} DecimalRoundTrip(n: nat)
    ensures ParseDecimal(Decimal(n)) == n
    decreases n
  {
    var r := Decimal(n);
    if n >= 10 {
      DecimalRoundTrip(n / 10);
      assert r[..|r| - 1] == Decimal(n / 10);
    }
  }

  /** Two timestamps never print the same. */
  lemma DecimalInjective(a: nat, b: nat)
    requires Decimal(a) == Decimal(b)
    ensures a == b
  {
    DecimalRoundTrip(a);
    DecimalRoundTrip(b);
  }

  // ---------------------------------------------------------------------
  // The temp files of one generate request (server.js lines 136-138)
  // ---------------------------------------------------------------------

  function TextFile(ts: nat): string {
    "text-" + Decimal(ts) + ".txt"
  }

  function RawFile(ts: nat): string {
    "raw-" + Decimal(ts) + ".mp3"
  }

  function FinalFile(ts: nat): string {
    "announcement-" + Decimal(ts) + ".mp3"
  }

  /** The three files of one request are distinct and contain no '/'. */
  lemma FilesOfRequest(ts: nat)
    ensures TextFile(ts) != RawFile(ts) && RawFile(ts) != FinalFile(ts) && TextFile(ts) != FinalFile(ts)
    ensures '/' !in TextFile(ts) && '/' !in RawFile(ts) && '/' !in FinalFile(ts)
  {
    assert TextFile(ts)[0] == 't' && RawFile(ts)[0] == 'r' && FinalFile(ts)[0] == 'a';
    var d := Decimal(ts);
    assert forall k :: 0 <= k < |d| ==> d[k] != '/';
    assert TextFile(ts) == "text-" + d + ".txt";
    forall k | 0 <= k < |TextFile(ts)| ensures TextFile(ts)[k] != '/' {
      if 5 <= k < 5 + |d| {
        assert TextFile(ts)[k] == d[k - 5];
      }
    }
    forall k | 0 <= k < |RawFile(ts)| ensures RawFile(ts)[k] != '/' {
      if 4 <= k < 4 + |d| {
        assert RawFile(ts)[k] == d[k - 4];
      }
    }
    forall k | 0 <= k < |FinalFile(ts)| ensures FinalFile(ts)[k] != '/' {
      if 13 <= k < 13 + |d| {
        assert FinalFile(ts)[k] == d[k - 13];
      }
    }
  }

  /** Requests with different timestamps produce different clips. */
  lemma FinalFileInjective(a: nat, b: nat)
    requires FinalFile(a) == FinalFile(b)
    ensures a == b
  {
    var x, y := FinalFile(a), FinalFile(b);
    assert Decimal(a) == x[13..|x| - 4];
    assert Decimal(b) == y[13..|y| - 4];
    DecimalInjective(a, b);
  }

  // ---------------------------------------------------------------------
  // `url.split('/').pop()`
  // ---------------------------------------------------------------------

  /** The text after the last '/' of `s`, or all of `s` when it has none. */
  function LastSegment(s: string): (r: string)
    ensures '/' !in r
    ensures |r| <= |s|
    decreases |s|
  {
    if s == [] then []
    else if s[|s| - 1] == '/' then []
    else LastSegment(s[..|s| - 1]) + [s[|s| - 1]]
  }

  /** The segment is a suffix of `s`, and a '/' stands just before it unless it is all of `s`. */
  lemma {:induction false} LastSegmentSuffix(s: string)
    ensures var r := LastSegment(s);
      s[|s| - |r|..] == r && (|r| < |s| ==> s[|s| - |r| - 1] == '/')
    decreases |s|
  {
    if s != [] && s[|s| - 1] != '/' {
      var t := s[..|s| - 1];
      var q := LastSegment(t);
      LastSegmentSuffix(t);
      var n := |t| - |q|;
      assert LastSegment(s) == q + [s[|s| - 1]];
      assert s[n..] == t[n..] + [s[|s| - 1]];
    }
  }

  /** The segment a URL ends with is what `LastSegment` gives back. */
  lemma LastSegmentOf(prefix: string, name: string)
    requires '/' !in name
    ensures LastSegment(prefix + "/" + name) == name
  {
    var s := prefix + "/" + name;
    var r := LastSegment(s);
    LastSegmentSuffix(s);
    assert s[|s| - |name|..] == name;
    assert s[|s| - |name| - 1] == '/';
    assert |r| == |name|;
  }

  // ---------------------------------------------------------------------
  // The `HH:MM` clock of the schedule check (server.js line 354)
  // ---------------------------------------------------------------------

  /** `String(n).padStart(2, '0')`. */
  function Pad2(n: nat): string {
    if n < 10 then "0" + Decimal(n) else Decimal(n)
  }

  function FormatTime(hours: nat, minutes: nat): string {
    Pad2(hours) + ":" + Pad2(minutes)
  }

  lemma Pad2Digits(n: nat)
    requires n < 100
    ensures Pad2(n) == [Digit(n / 10), Digit(n % 10)]
  {
    if n >= 10 {
      assert Decimal(n / 10) == [Digit(n / 10)];
    }
  }

  /** Reads an `HH:MM` string back as hours and minutes. */
  function ParseTime(s: string): (nat, nat)
    requires |s| == 5 && IsDigit(s[0]) && IsDigit(s[1]) && IsDigit(s[3]) && IsDigit(s[4])
  {
    (10 * DigitValue(s[0]) + DigitValue(s[1]), 10 * DigitValue(s[3]) + DigitValue(s[4]))
  }

  /** A clock reading prints as five characters `HH:MM` and reads back. */
  lemma TimeRoundTrip(hours: nat, minutes: nat)
    requires hours < 24 && minutes < 60
    ensures var s := FormatTime(hours, minutes);
      |s| == 5 && s[2] == ':' && IsDigit(s[0]) && IsDigit(s[1]) && IsDigit(s[3]) && IsDigit(s[4])
      && ParseTime(s) == (hours, minutes)
  {
    Pad2Digits(hours);
    Pad2Digits(minutes);
  }

  /** So two different minutes of the day never print alike. */
  lemma TimeInjective(h1: nat, m1: nat, h2: nat, m2: nat)
    requires h1 < 24 && m1 < 60 && h2 < 24 && m2 < 60
    requires FormatTime(h1, m1) == FormatTime(h2, m2)
    ensures h1 == h2 && m1 == m2
  {
    TimeRoundTrip(h1, m1);
    TimeRoundTrip(h2, m2);
  }
}

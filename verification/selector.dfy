/** Choosing the newest cleaned plan among the file names of a folder. A cleaned plan is
    stored as `Project Plan Analysis-continuous-YYYY-MM-DD.xlsx`; the selector matches that
    pattern at the start of each name, parses the date, and picks the first name with the
    latest date. */
module Selector {
  import opened Wrappers
  import Strings

  /** A calendar date as `datetime` holds it. */
  datatype Date = Date(year: int, month: int, day: int)

  predicate IsLeapYear(y: int)
  {
    y % 4 == 0 && (y % 100 != 0 || y % 400 == 0)
  }

  function DaysInMonth(y: int, m: int): int
    requires 1 <= m <= 12
  {
    if m == 2 then (if IsLeapYear(y) then 29 else 28)
    else if m == 4 || m == 6 || m == 9 || m == 11 then 30
    else 31
  }

  /** The dates `datetime` can represent: years 1 to 9999 and days that exist in their
      month (proleptic Gregorian calendar). */
  predicate ValidDate(d: Date)
  {
    && 1 <= d.year <= 9999
    && 1 <= d.month <= 12
    && 1 <= d.day <= DaysInMonth(d.year, d.month)
  }

  /** Chronological order, as `datetime` compares. */
  predicate Before(a: Date, b: Date)
  {
    || a.year < b.year
    || (a.year == b.year && a.month < b.month)
    || (a.year == b.year && a.month == b.month && a.day < b.day)
  }

  /** The fixed text before the date. */
  const Prefix := "Project Plan Analysis-continuous-"

  /** The fixed text after the date. */
  const Extension := ".xlsx"

  /** Text of the shape `\d{4}-\d{2}-\d{2}`. */
  predicate DateShaped(s: string)
  {
    && |s| == 10
    && Strings.IsDigit(s[0]) && Strings.IsDigit(s[1]) && Strings.IsDigit(s[2]) && Strings.IsDigit(s[3])
    && s[4] == '-'
    && Strings.IsDigit(s[5]) && Strings.IsDigit(s[6])
    && s[7] == '-'
    && Strings.IsDigit(s[8]) && Strings.IsDigit(s[9])
  }

  /** `re.match(r"Project Plan Analysis-continuous-(\d{4}-\d{2}-\d{2})\.xlsx", name)`:
      the pattern must match at the start of the name, and anything may follow it. The
      result is the captured date text. */
  function MatchName(name: string): (r: Option<string>)
    ensures r.Some? ==> DateShaped(r.value)
  {
    var n := |Prefix|;
    if && |name| >= n + 10 + |Extension|
       && name[..n] == Prefix
       && DateShaped(name[n..n + 10])
       && name[n + 10..n + 10 + |Extension|] == Extension
    then Some(name[n..n + 10])
    else None
  }

  /** The names the pattern accepts are exactly those that begin with the prefix, a
      date-shaped text and the extension, whatever follows; the capture is that text. */
  lemma MatchNameExactly(name: string, s: string)
    ensures MatchName(name) == Some(s) <==>
              && DateShaped(s)
              && |Prefix| + 10 + |Extension| <= |name|
              && name[..|Prefix| + 10 + |Extension|] == Prefix + s + Extension
  {
    var n, e := |Prefix|, |Extension|;
    if |name| >= n + 10 + e {
      var head := name[..n + 10 + e];
      assert head[..n] == name[..n] && head[n..n + 10] == name[n..n + 10];
      assert head[n + 10..] == name[n + 10..n + 10 + e];
      if |s| == 10 {
        var t := Prefix + s + Extension;
        assert t[..n] == Prefix && t[n..n + 10] == s && t[n + 10..] == Extension;
        assert head == t <==> head[..n] == t[..n] && head[n..n + 10] == t[n..n + 10] && head[n + 10..] == t[n + 10..];
      }
    }
  }

  /** Anchored at the start only: the name stored for a date, followed by any text, is
      accepted with the formatted date as its capture. */
  lemma MatchNameAccepts(d: Date, rest: string)
    requires ValidDate(d)
    ensures MatchName(PlanFileName(d) + rest) == Some(FormatDate(d))
  {
    var name := PlanFileName(d) + rest;
    assert name[..|Prefix| + 10 + |Extension|] == PlanFileName(d);
    MatchNameExactly(name, FormatDate(d));
  }

  /** `datetime.strptime(text, "%Y-%m-%d")`: `None` where it raises `ValueError` (a year
      0, a month outside 1..12, or a day the month does not have). */
  function ParseDate(text: string): (r: Option<Date>)
    requires DateShaped(text)
    ensures r.Some? ==> ValidDate(r.value)
  {
    var d := Date(Strings.DigitsValue(text[0..4]), Strings.DigitsValue(text[5..7]), Strings.DigitsValue(text[8..10]));
    if ValidDate(d) then Some(d) else None
  }

  /** Two decimal digits, zero-padded. */
  function Pad2(n: nat): string
    requires n < 100
  {
    [Strings.DigitChar(n / 10), Strings.DigitChar(n % 10)]
  }

  /** Four decimal digits, zero-padded. */
  function Pad4(n: nat): string
    requires n < 10000
  {
    Pad2(n / 100) + Pad2(n % 100)
  }

  /** `date.strftime('%Y-%m-%d')`. */
  function FormatDate(d: Date): (s: string)
    requires ValidDate(d)
    ensures DateShaped(s)
  {
    Pad4(d.year) + "-" + Pad2(d.month) + "-" + Pad2(d.day)
  }

  /** The name the first run gives the cleaned plan it stores on date `d`. */
  function PlanFileName(d: Date): (name: string)
    requires ValidDate(d)
    ensures MatchName(name) == Some(FormatDate(d))
  {
    var name := Prefix + FormatDate(d) + Extension;
    assert name[..|Prefix| + 10 + |Extension|] == name;
    MatchNameExactly(name, FormatDate(d));
    name
  }

  lemma Pad2Digits(n: nat)
    requires n < 100
    ensures Strings.IsDigit(Pad2(n)[0]) && Strings.IsDigit(Pad2(n)[1])
    ensures Strings.DigitsValue(Pad2(n)) == n
  {
    var s := Pad2(n);
    assert s[..1] == [s[0]];
    assert Strings.DigitsValue(s[..1]) == s[0] as int - '0' as int;
  }

  lemma Pad4Digits(n: nat)
    requires n < 10000
    ensures forall i :: 0 <= i < 4 ==> Strings.IsDigit(Pad4(n)[i])
    ensures Strings.DigitsValue(Pad4(n)) == n
  {
    var hi, lo := Pad2(n / 100), Pad2(n % 100);
    Pad2Digits(n / 100);
    Pad2Digits(n % 100);
    var s := hi + lo;
    assert s[..3] == hi + lo[..1];
    assert s[..2] == hi;
    assert lo[..1] == [lo[0]];
    assert Strings.DigitsValue(lo[..1]) == lo[0] as int - '0' as int;
    assert Strings.DigitsValue(lo) == Strings.DigitsValue(lo[..1]) * 10 + (lo[1] as int - '0' as int);
    assert Strings.DigitsValue(s[..3]) == Strings.DigitsValue(hi) * 10 + (lo[0] as int - '0' as int);
    assert Strings.DigitsValue(s) == Strings.DigitsValue(s[..3]) * 10 + (lo[1] as int - '0' as int);
  }

  /** Formatting a valid date and parsing the text back gives the date. */
  lemma ParseFormat(d: Date)
    requires ValidDate(d)
    ensures ParseDate(FormatDate(d)) == Some(d)
  {
    var s := FormatDate(d);
    Pad4Digits(d.year);
    Pad2Digits(d.month);
    Pad2Digits(d.day);
    assert s[0..4] == Pad4(d.year);
    assert s[5..7] == Pad2(d.month);
    assert s[8..10] == Pad2(d.day);
  }

  /** Round trip between the name the first run stores and the name the selector accepts:
      the stored name matches the pattern, its captured text is the formatted date, and
      that text parses back to the same date. */
  lemma PlanFileNameRoundTrip(d: Date)
    requires ValidDate(d)
    ensures MatchName(PlanFileName(d)) == Some(FormatDate(d))
    ensures ParseDate(FormatDate(d)) == Some(d)
  {
    var name := PlanFileName(d);
    var n := |Prefix|;
    assert name[..n] == Prefix;
    assert name[n..n + 10] == FormatDate(d);
    assert name[n + 10..n + 10 + |Extension|] == Extension;
    ParseFormat(d);
  }

  /** Parsing then formatting reproduces the captured text. */
  lemma FormatParse(text: string)
    requires DateShaped(text) && ParseDate(text).Some?
    ensures FormatDate(ParseDate(text).value) == text
  {
    var d := ParseDate(text).value;
    Pad4Digits(d.year);
    Pad2Digits(d.month);
    Pad2Digits(d.day);
    DigitsDetermine(text[0..4], Pad4(d.year));
    DigitsDetermine(text[5..7], Pad2(d.month));
    DigitsDetermine(text[8..10], Pad2(d.day));
    DateTextParts(text);
  }

  /** Date-shaped text is its three digit runs joined by dashes. */
  lemma DateTextParts(text: string)
    requires DateShaped(text)
    ensures text == text[0..4] + "-" + text[5..7] + "-" + text[8..10]
  {
  }

  /** Two equally long digit runs that spell the same number are the same text. */
  lemma {:induction false} DigitsDetermine(a: string, b: string)
    requires |a| == |b|
    requires forall i :: 0 <= i < |a| ==> Strings.IsDigit(a[i])
    requires forall i :: 0 <= i < |b| ==> Strings.IsDigit(b[i])
    requires Strings.DigitsValue(a) == Strings.DigitsValue(b)
    ensures a == b
    decreases |a|
  {
    if |a| > 0 {
      var n := |a|;
      var x, y := a[n - 1] as int - '0' as int, b[n - 1] as int - '0' as int;
      LastDigit(Strings.DigitsValue(a), Strings.DigitsValue(a[..n - 1]), x);
      LastDigit(Strings.DigitsValue(b), Strings.DigitsValue(b[..n - 1]), y);
      DigitsDetermine(a[..n - 1], b[..n - 1]);
      assert a == a[..n - 1] + [a[n - 1]];
      assert b == b[..n - 1] + [b[n - 1]];
    }
  }

  /** The last decimal digit and the rest of a number are determined by the number. */
  lemma LastDigit(v: int, w: int, x: int)
    requires v == w * 10 + x && 0 <= x < 10
    ensures v % 10 == x && v / 10 == w
  {
  }

  /** Every name the selector accepts with a valid date begins with the name the first run
      stores for that date; only a suffix after `.xlsx` can differ. */
  lemma MatchedNameStartsWithPlanFileName(name: string)
    requires MatchName(name).Some? && ParseDate(MatchName(name).value).Some?
    ensures var d := ParseDate(MatchName(name).value).value;
            |PlanFileName(d)| <= |name| && name[..|PlanFileName(d)|] == PlanFileName(d)
  {
    var text := MatchName(name).value;
    var d := ParseDate(text).value;
    FormatParse(text);
    var n := |Prefix|;
    assert name[..n + 10 + |Extension|] == name[..n] + name[n..n + 10] + name[n + 10..n + 10 + |Extension|];
  }

  /** The 29th of February parses in a leap year. */
  lemma LeapDayParses()
    ensures DateShaped("2024-02-29") && ParseDate("2024-02-29") == Some(Date(2024, 2, 29))
  {
    var d := Date(2024, 2, 29);
    ParseFormat(d);
    assert FormatDate(d) == "2024-02-29";
  }

  /** The 30th of February has the pattern's shape but is no date: `strptime` raises on
      it, which the selection reports as a bad date. */
  lemma ImpossibleDateRejected()
    ensures DateShaped("2023-02-30") && ParseDate("2023-02-30") == None
  {
    var text := Pad4(2023) + "-" + Pad2(2) + "-" + Pad2(30);
    assert text == "2023-02-30";
    Pad4Digits(2023);
    Pad2Digits(2);
    Pad2Digits(30);
    assert text[0..4] == Pad4(2023) && text[5..7] == Pad2(2) && text[8..10] == Pad2(30);
  }

  /** The outcome of choosing the latest plan among a folder's file names. */
  datatype Selection =
    | NoMatch              // no name matches the pattern
    | Latest(name: string) // the chosen name
    | BadDate(name: string) // `strptime` raised on this name's date

  predicate Matches(name: string)
  {
    MatchName(name).Some?
  }

  /** The parsed date of a matching name, `None` when it is not a real date. */
  function MatchedDate(name: string): Option<Date>
    requires Matches(name)
  {
    ParseDate(MatchName(name).value)
  }

  /** `names[i]` is the first matching name whose date does not parse. */
  ghost predicate IsFirstBadDate(names: seq<string>, i: int)
  {
    && 0 <= i < |names|
    && Matches(names[i]) && MatchedDate(names[i]).None?
    && forall j :: 0 <= j < i && Matches(names[j]) ==> MatchedDate(names[j]).Some?
  }

  /** Among the first `n` names, `names[k]` matches with a date no matching name exceeds,
      and every earlier matching name has a strictly earlier date. */
  ghost predicate IsLatestAmong(names: seq<string>, k: int, n: int)
    requires 0 <= n <= |names|
  {
    && 0 <= k < n
    && Matches(names[k]) && MatchedDate(names[k]).Some?
    && (forall j :: 0 <= j < n && Matches(names[j]) ==>
          MatchedDate(names[j]).Some? && !Before(MatchedDate(names[k]).value, MatchedDate(names[j]).value))
    && (forall j :: 0 <= j < k && Matches(names[j]) ==>
          Before(MatchedDate(names[j]).value, MatchedDate(names[k]).value))
  }

  /** A later name with a strictly later date takes the lead. */
  lemma LatestReplaced(names: seq<string>, best: int, i: int)
    requires 0 <= i < |names| && Matches(names[i]) && MatchedDate(names[i]).Some?
    requires forall j :: 0 <= j < i && Matches(names[j]) ==> MatchedDate(names[j]).Some?
    requires best == -1 ==> forall j :: 0 <= j < i ==> !Matches(names[j])
    requires best != -1 ==> IsLatestAmong(names, best, i)
                            && Before(MatchedDate(names[best]).value, MatchedDate(names[i]).value)
    ensures IsLatestAmong(names, i, i + 1)
  {
    var d := MatchedDate(names[i]).value;
    forall j | 0 <= j < i && Matches(names[j])
      ensures Before(MatchedDate(names[j]).value, d) && !Before(d, MatchedDate(names[j]).value)
    {
      BeforeTrans(MatchedDate(names[j]).value, MatchedDate(names[best]).value, d);
    }
    assert !Before(d, d);
  }

  /** A name that does not match, or whose date does not beat the current lead, leaves
      the lead in place. */
  lemma LatestKept(names: seq<string>, best: int, i: int)
    requires 0 <= i < |names| && IsLatestAmong(names, best, i)
    requires Matches(names[i]) ==> MatchedDate(names[i]).Some?
                                   && !Before(MatchedDate(names[best]).value, MatchedDate(names[i]).value)
    ensures IsLatestAmong(names, best, i + 1)
  {
  }

  /** Dates compare as (year, month, day) triples: not after the middle and strictly
      before the last means strictly before the last. */
  lemma BeforeTrans(a: Date, b: Date, c: Date)
    requires !Before(b, a) && Before(b, c)
    ensures Before(a, c)
  {
  }

  /** The selection loop: collect the matching names with their parsed dates (raising on
      the first date that does not parse), then return the first name carrying the
      maximum date, or nothing when no name matched. */
  method SelectLatest(names: seq<string>) returns (r: Selection)
    ensures r.BadDate? <==> exists i :: 0 <= i < |names| && Matches(names[i]) && MatchedDate(names[i]).None?
    ensures r.BadDate? ==> exists i :: IsFirstBadDate(names, i) && names[i] == r.name
    ensures r.NoMatch? <==> forall i :: 0 <= i < |names| ==> !Matches(names[i])
    ensures r.Latest? ==> exists k :: IsLatestAmong(names, k, |names|) && names[k] == r.name
  {
    var best := -1;
    var bestDate := Date(0, 0, 0);
    var i := 0;
    while i < |names|
      invariant 0 <= i <= |names|
      invariant forall j :: 0 <= j < i && Matches(names[j]) ==> MatchedDate(names[j]).Some?
      invariant best == -1 <==> forall j :: 0 <= j < i ==> !Matches(names[j])
      invariant best != -1 ==> IsLatestAmong(names, best, i) && bestDate == MatchedDate(names[best]).value
    {
      var m := MatchName(names[i]);
      if m.Some? {
        var parsed := ParseDate(m.value);
        if parsed.None? {
          assert IsFirstBadDate(names, i);
          return BadDate(names[i]);
        }
        if best == -1 || Before(bestDate, parsed.value) {
          LatestReplaced(names, best, i);
          best, bestDate := i, parsed.value;
        } else {
          LatestKept(names, best, i);
        }
      } else if best != -1 {
        LatestKept(names, best, i);
      }
      i := i + 1;
    }
    if best == -1 {
      return NoMatch;
    }
    return Latest(names[best]);
  }
}

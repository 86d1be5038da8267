// Log file names of internal/activity/activity.go: normalising a source's name, naming its file of a
// day, reading the day back, and deleting files by comparing days as text.

module ActivityFiles {
  import opened GoText

  // ---------------------------------------------------------------- source names

  predicate AlphaNum(c: char) {
    'a' <= c <= 'z' || '0' <= c <= '9'
  }

  lemma AlphabetIs(c: char)
    ensures AlphaNum(c) <==> c in "abcdefghijklmnopqrstuvwxyz0123456789"
  {
  }

  // One dash for every run of other characters.
  function Squash(s: string, lastDash: bool): string {
    if s == "" then ""
    else if AlphaNum(s[0]) then [s[0]] + Squash(s[1..], false)
    else if lastDash then Squash(s[1..], true)
    else "-" + Squash(s[1..], true)
  }

  function TrimDashesLeft(s: string): string {
    if s != "" && s[0] == '-' then TrimDashesLeft(s[1..]) else s
  }

  function TrimDashesRight(s: string): string {
    if s != "" && s[|s| - 1] == '-' then TrimDashesRight(s[..|s| - 1]) else s
  }

  function TrimDashes(s: string): string {
    TrimDashesRight(TrimDashesLeft(s))
  }

  function NormalizeSourceName(source: string): string {
    var s := ToLower(TrimSpace(source));
    if s == "" then "" else TrimDashes(Squash(s, false))
  }

  lemma {:induction false} SquashAppend(s: string, c: char, lastDash: bool)
    ensures Squash(s + [c], lastDash)
         == Squash(s, lastDash)
          + if AlphaNum(c) then [c] else if EndsInDash(s, lastDash) then "" else "-"
  {
    if s == "" {
      assert ("" + [c])[1..] == "" && "" + [c] == [c];
    } else {
      assert (s + [c])[1..] == s[1..] + [c];
      SquashAppend(s[1..], c, !AlphaNum(s[0]));
    }
  }

  predicate EndsInDash(s: string, lastDash: bool) {
    if s == "" then lastDash else !AlphaNum(s[|s| - 1])
  }

  method NormalizeSource(source: string) returns (name: string)
    ensures name == NormalizeSourceName(source)
  {
    var s := ToLower(TrimSpace(source));
    if s == "" {
      return "";
    }
    var b := "";
    var lastDash := false;
    for i := 0 to |s|
      invariant b == Squash(s[..i], false)
      invariant lastDash == EndsInDash(s[..i], false)
    {
      assert s[..i + 1] == s[..i] + [s[i]];
      SquashAppend(s[..i], s[i], false);
      if AlphaNum(s[i]) {
        b := b + [s[i]];
        lastDash := false;
        continue;
      }
      if !lastDash {
        b := b + "-";
        lastDash := true;
      }
    }
    assert s[..|s|] == s;
    return TrimDashes(b);
  }

  // Lower-case letters and digits in groups separated by single dashes.
  predicate Normal(s: string) {
    && DashSeparated(s)
    && (s != "" ==> s[0] != '-' && s[|s| - 1] != '-')
  }

  predicate DashSeparated(s: string) {
    && (forall i :: 0 <= i < |s| ==> AlphaNum(s[i]) || s[i] == '-')
    && (forall i :: 0 <= i < |s| - 1 ==> !(s[i] == '-' && s[i + 1] == '-'))
  }

  lemma {:induction false} SquashSeparates(s: string, lastDash: bool)
    ensures DashSeparated(Squash(s, lastDash))
    ensures lastDash && Squash(s, lastDash) != "" ==> Squash(s, lastDash)[0] != '-'
  {
    if s != "" {
      SquashSeparates(s[1..], !AlphaNum(s[0]));
    }
  }

  lemma {:induction false} SquashOfSeparated(s: string, lastDash: bool)
    requires DashSeparated(s) && (lastDash && s != "" ==> s[0] != '-')
    ensures Squash(s, lastDash) == s
  {
    if s != "" {
      SquashOfSeparated(s[1..], !AlphaNum(s[0]));
    }
  }

  lemma TrimRightSeparated(s: string)
    requires DashSeparated(s)
    ensures DashSeparated(TrimDashesRight(s))
    ensures var t := TrimDashesRight(s); t != "" ==> t[|t| - 1] != '-' && t[0] == s[0]
  {
  }

  lemma TrimLeftSeparated(s: string)
    requires DashSeparated(s)
    ensures DashSeparated(TrimDashesLeft(s))
    ensures var t := TrimDashesLeft(s); t != "" ==> t[0] != '-'
  {
  }

  lemma NormalIsUntouched(s: string)
    requires Normal(s)
    ensures NormalizeSourceName(s) == s
  {
    assert forall i :: 0 <= i < |s| ==> LowerChar(s[i]) == s[i] && !IsSpace(s[i]);
    TrimmedIsFixed(s);
    assert ToLower(s) == s;
    SquashOfSeparated(s, false);
  }

  // Every normalised name is in normal form, and exactly the names in normal form stay as they are;
  // normalising twice is normalising once.
  lemma NormalizationIsIdempotent(source: string)
    ensures Normal(NormalizeSourceName(source))
    ensures NormalizeSourceName(source) == source <==> Normal(source)
    ensures NormalizeSourceName(NormalizeSourceName(source)) == NormalizeSourceName(source)
  {
    var s := ToLower(TrimSpace(source));
    SquashSeparates(s, false);
    TrimLeftSeparated(Squash(s, false));
    TrimRightSeparated(TrimDashesLeft(Squash(s, false)));
    NormalIsUntouched(NormalizeSourceName(source));
    if Normal(source) {
      NormalIsUntouched(source);
    }
  }

  // The runs of letters and digits; `run` is the one just being read.
  function Words(s: string, run: string): seq<string> {
    if s == "" then Ended(run)
    else if AlphaNum(s[0]) then Words(s[1..], run + [s[0]])
    else Ended(run) + Words(s[1..], "")
  }

  function Ended(run: string): seq<string> {
    if run == "" then [] else [run]
  }

  lemma {:induction false} WordsOfSquash(s: string, lastDash: bool, run: string)
    requires lastDash ==> run == ""
    ensures Words(Squash(s, lastDash), run) == Words(s, run)
  {
    if s != "" {
      WordsOfSquash(s[1..], !AlphaNum(s[0]), if AlphaNum(s[0]) then run + [s[0]] else "");
      if AlphaNum(s[0]) {
        assert Squash(s, lastDash)[1..] == Squash(s[1..], false);
      } else if !lastDash {
        assert Squash(s, lastDash)[1..] == Squash(s[1..], true);
      }
    }
  }

  lemma {:induction false} WordsBeforeGap(s: string, c: char, run: string)
    requires !AlphaNum(c)
    ensures Words(s + [c], run) == Words(s, run)
  {
    if s == "" {
      assert ("" + [c])[1..] == "" && "" + [c] == [c];
      assert Ended(run) + Words("", "") == Ended(run);
    } else {
      assert (s + [c])[1..] == s[1..] + [c];
      WordsBeforeGap(s[1..], c, if AlphaNum(s[0]) then run + [s[0]] else "");
    }
  }

  lemma {:induction false} WordsOfTrimLeft(s: string)
    ensures Words(TrimDashesLeft(s), "") == Words(s, "")
  {
    if s != "" && s[0] == '-' {
      WordsOfTrimLeft(s[1..]);
    }
  }

  lemma {:induction false} WordsOfTrimRight(s: string)
    ensures Words(TrimDashesRight(s), "") == Words(s, "")
  {
    if s != "" && s[|s| - 1] == '-' {
      WordsOfTrimRight(s[..|s| - 1]);
      WordsBeforeGap(s[..|s| - 1], '-', "");
      assert s == s[..|s| - 1] + ['-'];
    }
  }

  lemma SliceOfTail(s: string, i: nat, j: nat)
    requires 0 < i <= j <= |s|
    ensures s[1..][i - 1..j - 1] == s[i..j]
  {
  }

  lemma SliceOfFront(s: string, j: nat)
    requires j < |s|
    ensures s[..|s| - 1][0..j] == s[0..j]
  {
  }

  lemma {:induction false} WordsOfMiddle(s: string, i: nat, j: nat)
    requires i <= j <= |s| && forall k :: 0 <= k < i || j <= k < |s| ==> !AlphaNum(s[k])
    ensures Words(s[i..j], "") == Words(s, "")
    decreases |s|
  {
    if i > 0 {
      WordsOfMiddle(s[1..], i - 1, j - 1);
      SliceOfTail(s, i, j);
    } else if j < |s| {
      var front := s[..|s| - 1];
      WordsOfMiddle(front, 0, j);
      WordsBeforeGap(front, s[|s| - 1], "");
      assert front + [s[|s| - 1]] == s;
      SliceOfFront(s, j);
    } else {
      assert s[0..j] == s;
    }
  }

  lemma SpaceIsNoLetter(c: char)
    ensures IsSpace(c) ==> !AlphaNum(LowerChar(c))
  {
  }

  // A normalised name is made of the same words as the source in lower case; being in normal form, it is
  // therefore these words joined by dashes.
  lemma NormalizationKeepsWords(source: string)
    ensures Words(NormalizeSourceName(source), "") == Words(ToLower(source), "")
  {
    hide IsSpace, LowerChar, AlphaNum, TrimSpace, Words, Squash, TrimDashesLeft, TrimDashesRight;
    var i, j := TrimSpaceTakesSpace(source);
    var all, s := ToLower(source), ToLower(TrimSpace(source));
    assert s == all[i..j];
    forall k | 0 <= k < i || j <= k < |all| ensures !AlphaNum(all[k]) {
      SpaceIsNoLetter(source[k]);
    }
    WordsOfMiddle(all, i, j);
    assert s == "" ==> NormalizeSourceName(source) == "" == s;
    WordsOfSquash(s, false, "");
    WordsOfTrimLeft(Squash(s, false));
    WordsOfTrimRight(TrimDashesLeft(Squash(s, false)));
  }

  // ---------------------------------------------------------------- text order

  // Byte-wise comparison, which for UTF-8 is comparison by code points.
  predicate Less(a: string, b: string) {
    b != "" && (a == "" || a[0] < b[0] || (a[0] == b[0] && Less(a[1..], b[1..])))
  }

  lemma {:induction false} LessIsStrict(a: string)
    ensures !Less(a, a)
  {
    if a != "" {
      LessIsStrict(a[1..]);
    }
  }

  lemma {:induction false} LessByParts(a: string, b: string, a': string, b': string)
    requires |a| == |b|
    ensures Less(a + a', b + b') <==> Less(a, b) || (a == b && Less(a', b'))
  {
    if a == "" {
      assert a + a' == a' && b + b' == b';
    } else {
      assert (a + a')[1..] == a[1..] + a' && (b + b')[1..] == b[1..] + b';
      LessByParts(a[1..], b[1..], a', b');
      assert a == [a[0]] + a[1..] && b == [b[0]] + b[1..];
    }
  }

  // ---------------------------------------------------------------- days as text

  function Digit(n: int): char
    requires 0 <= n < 10
  {
    ('0' as int + n) as char
  }

  // The last `width` decimal digits.
  function Pad(n: nat, width: nat): (s: string)
    ensures |s| == width
    decreases width
  {
    if width == 0 then "" else Pad(n / 10, width - 1) + [Digit(n % 10)]
  }

  function Pow10(k: nat): nat {
    if k == 0 then 1 else 10 * Pow10(k - 1)
  }

  lemma {:induction false} PadOrder(x: nat, y: nat, width: nat)
    requires x < Pow10(width) && y < Pow10(width)
    ensures Less(Pad(x, width), Pad(y, width)) <==> x < y
    ensures Pad(x, width) == Pad(y, width) <==> x == y
    decreases width
  {
    if width > 0 {
      PadOrder(x / 10, y / 10, width - 1);
      var p, q := Pad(x / 10, width - 1), Pad(y / 10, width - 1);
      var c, d := Digit(x % 10), Digit(y % 10);
      LessByParts(p, q, [c], [d]);
      assert Less([c], [d]) <==> c < d;
      assert (p + [c])[..width - 1] == p && (q + [d])[..width - 1] == q;
      assert (p + [c])[width - 1] == c && (q + [d])[width - 1] == d;
    }
  }

  datatype Date = Date(year: int, month: int, day: int)

  predicate Leap(y: int) {
    y % 4 == 0 && (y % 100 != 0 || y % 400 == 0)
  }

  function DaysIn(y: int, m: int): int {
    if m == 2 then (if Leap(y) then 29 else 28)
    else if m == 4 || m == 6 || m == 9 || m == 11 then 30
    else 31
  }

  // A day of the Gregorian calendar, extended backwards.
  predicate ValidDate(d: Date) {
    1 <= d.month <= 12 && 1 <= d.day <= DaysIn(d.year, d.month)
  }

  type Day = d: Date | ValidDate(d) witness Date(1, 1, 1)

  function Digits(n: nat): nat {
    if n < 10 then 1 else 1 + Digits(n / 10)
  }

  // Format("2006-01-02"): the year takes at least four digits, and more or a sign if it must.
  function YearText(y: int): string {
    if y < 0 then "-" + Pad(-y, if -y <= 9999 then 4 else Digits(-y))
    else Pad(y, if y <= 9999 then 4 else Digits(y))
  }

  function DateText(d: Day): string {
    YearText(d.year) + ("-" + (Pad(d.month, 2) + ("-" + Pad(d.day, 2))))
  }

  // ---------------------------------------------------------------- days as numbers

  function DaysBeforeYear(y: int): int {
    365 * y + (y - 1) / 4 - (y - 1) / 100 + (y - 1) / 400
  }

  function DaysBeforeMonth(y: int, m: int): int
    requires 1 <= m <= 13
  {
    if m == 1 then 0 else DaysBeforeMonth(y, m - 1) + DaysIn(y, m - 1)
  }

  function DayNumber(d: Day): int
  {
    DaysBeforeYear(d.year) + DaysBeforeMonth(d.year, d.month) + d.day
  }

  lemma FourthStep(y: int)
    ensures y / 4 - (y - 1) / 4 == if y % 4 == 0 then 1 else 0
  {
  }

  lemma HundredthStep(y: int)
    ensures y / 100 - (y - 1) / 100 == if y % 100 == 0 then 1 else 0
  {
  }

  lemma FourHundredthStep(y: int)
    ensures y / 400 - (y - 1) / 400 == if y % 400 == 0 then 1 else 0
  {
  }

  lemma CenturiesAreFourths(y: int)
    ensures y % 100 == 0 ==> y % 4 == 0
    ensures y % 400 == 0 ==> y % 100 == 0
  {
    assert y % 4 == y % 100 + 4 * (25 * (y / 100) - y / 4);
    assert y % 100 == y % 400 + 100 * (4 * (y / 400) - y / 100);
  }

  lemma YearLength(y: int)
    ensures DaysBeforeYear(y + 1) - DaysBeforeYear(y) == if Leap(y) then 366 else 365
  {
    FourthStep(y);
    HundredthStep(y);
    FourHundredthStep(y);
    CenturiesAreFourths(y);
  }

  lemma MonthsFillYear(y: int)
    ensures DaysBeforeMonth(y, 13) == if Leap(y) then 366 else 365
  {
    assert DaysBeforeMonth(y, 2) == DaysIn(y, 1);
    assert DaysBeforeMonth(y, 3) == DaysIn(y, 1) + DaysIn(y, 2);
    assert DaysBeforeMonth(y, 5) == DaysBeforeMonth(y, 3) + DaysIn(y, 3) + DaysIn(y, 4);
    assert DaysBeforeMonth(y, 7) == DaysBeforeMonth(y, 5) + DaysIn(y, 5) + DaysIn(y, 6);
    assert DaysBeforeMonth(y, 9) == DaysBeforeMonth(y, 7) + DaysIn(y, 7) + DaysIn(y, 8);
    assert DaysBeforeMonth(y, 11) == DaysBeforeMonth(y, 9) + DaysIn(y, 9) + DaysIn(y, 10);
    assert DaysBeforeMonth(y, 13) == DaysBeforeMonth(y, 11) + DaysIn(y, 11) + DaysIn(y, 12);
  }

  lemma {:induction false} MonthsInOrder(y: int, m: int, n: int)
    requires 1 <= m <= n <= 13
    ensures m < n ==> DaysBeforeMonth(y, m) + DaysIn(y, m) <= DaysBeforeMonth(y, n)
    ensures DaysBeforeMonth(y, m) <= DaysBeforeMonth(y, n)
    decreases n
  {
    if m < n {
      MonthsInOrder(y, m, n - 1);
    }
  }

  lemma YearsInOrder(y: int, z: int)
    requires y < z
    ensures DaysBeforeYear(y + 1) <= DaysBeforeYear(z)
    decreases z - y
  {
  }

  predicate Precedes(a: Day, b: Day) {
    a.year < b.year || (a.year == b.year && (a.month < b.month || (a.month == b.month && a.day < b.day)))
  }

  lemma PrecedingIsFewerDays(a: Day, b: Day)
    requires Precedes(a, b)
    ensures DayNumber(a) < DayNumber(b)
  {
    MonthsInOrder(a.year, a.month, 13);
    MonthsInOrder(b.year, 1, b.month);
    if a.year < b.year {
      MonthsFillYear(a.year);
      YearLength(a.year);
      YearsInOrder(a.year, b.year);
    } else {
      if a.month < b.month {
        MonthsInOrder(a.year, a.month, b.month);
      }
    }
  }

  lemma CalendarOrder(a: Day, b: Day)
    ensures Precedes(a, b) <==> DayNumber(a) < DayNumber(b)
  {
    if Precedes(a, b) {
      PrecedingIsFewerDays(a, b);
    } else if a != b {
      PrecedingIsFewerDays(b, a);
    }
  }

  // Text order is calendar order for the days files are named after, against any cutoff up to 9999.
  lemma TextOrderIsCalendarOrder(a: Day, b: Day)
    requires 0 <= a.year <= 9999 && b.year <= 9999
    ensures Less(DateText(a), DateText(b)) <==> DayNumber(a) < DayNumber(b)
  {
    CalendarOrder(a, b);
    if b.year < 0 {
      NegativeYearsSortFirst(a, b);
    } else {
      assert Pow10(4) == 10000 && Pow10(2) == 100;
      PadOrder(a.year, b.year, 4);
      PadOrder(a.month, b.month, 2);
      PadOrder(a.day, b.day, 2);
      var da, db := Pad(a.day, 2), Pad(b.day, 2);
      var ma, mb := Pad(a.month, 2), Pad(b.month, 2);
      LessByParts("-", "-", da, db);
      LessByParts(ma, mb, "-" + da, "-" + db);
      LessByParts("-", "-", ma + ("-" + da), mb + ("-" + db));
      LessByParts(YearText(a.year), YearText(b.year), "-" + (ma + ("-" + da)), "-" + (mb + ("-" + db)));
      LessIsStrict("-");
    }
  }

  lemma NegativeYearsSortFirst(a: Day, b: Day)
    requires 0 <= a.year <= 9999 && b.year < 0
    ensures !Less(DateText(a), DateText(b))
  {
  }

  lemma {:induction false} FirstDigit(n: nat, width: nat)
    requires width > 0
    ensures '0' <= Pad(n, width)[0] <= '9'
  {
    if width > 1 {
      FirstDigit(n / 10, width - 1);
    }
  }

  // ---------------------------------------------------------------- going back in time

  function PrevDay(d: Day): (p: Day)
  {
    if d.day > 1 then d.(day := d.day - 1)
    else if d.month > 1 then Date(d.year, d.month - 1, DaysIn(d.year, d.month - 1))
    else Date(d.year - 1, 12, 31)
  }

  // AddDate(0, 0, -n)
  function DaysAgo(d: Day, n: nat): (p: Day)
    decreases n
  {
    if n == 0 then d else DaysAgo(PrevDay(d), n - 1)
  }

  lemma PrevDayIsOneLess(d: Day)
    ensures DayNumber(PrevDay(d)) == DayNumber(d) - 1
  {
    if d.day == 1 && d.month == 1 {
      YearLength(d.year - 1);
      MonthsFillYear(d.year - 1);
    }
  }

  lemma {:induction false} DaysAgoCounts(d: Day, n: nat)
    ensures DayNumber(DaysAgo(d, n)) == DayNumber(d) - n
    ensures DaysAgo(d, n).year <= d.year
    decreases n
  {
    if n > 0 {
      PrevDayIsOneLess(d);
      DaysAgoCounts(PrevDay(d), n - 1);
    }
  }

  // ---------------------------------------------------------------- file names

  const LEGACY := "events.jsonl"

  // The file of a source's day; the primary log has no source.
  function FileName(source: string, d: Day): string
  {
    if source == "" then "events-" + DateText(d) + ".jsonl"
    else "events-" + source + "-" + DateText(d) + ".jsonl"
  }

  predicate IsActivityLogFile(name: string) {
    name != LEGACY && HasPrefix(name, "events-") && HasSuffix(name, ".jsonl")
  }

  predicate IsSourceLogFile(name: string, source: string) {
    HasPrefix(name, "events-" + source + "-")
  }

  function TrimPrefix(s: string, prefix: string): string {
    if HasPrefix(s, prefix) then s[|prefix|..] else s
  }

  function TrimSuffix(s: string, suffix: string): string {
    if HasSuffix(s, suffix) then s[..|s| - |suffix|] else s
  }

  const DATE_LENGTH := 10

  function ActivityLogDay(name: string): Option<string> {
    if !IsActivityLogFile(name) then None
    else
      var middle := TrimSuffix(TrimPrefix(name, "events-"), ".jsonl");
      if |middle| < DATE_LENGTH then None else Some(middle[|middle| - DATE_LENGTH..])
  }

  lemma ShapeOfName(middle: string)
    ensures var name := "events-" + middle + ".jsonl";
            && (middle != "" ==> IsActivityLogFile(name))
            && TrimSuffix(TrimPrefix(name, "events-"), ".jsonl") == middle
  {
  }

  lemma DayTakesTenCharacters(d: Day)
    requires 0 <= d.year <= 9999
    ensures |DateText(d)| == DATE_LENGTH
  {
  }

  lemma LastPart(front: string, day: string)
    requires |day| == DATE_LENGTH
    ensures ActivityLogDay("events-" + (front + day) + ".jsonl") == Some(day)
  {
    ShapeOfName(front + day);
    assert (front + day)[|front + day| - DATE_LENGTH..] == day;
  }

  lemma NameParts(source: string, day: string)
    ensures "events-" + source + "-" + day + ".jsonl" == "events-" + ((source + "-") + day) + ".jsonl"
    ensures HasPrefix("events-" + source + "-" + day + ".jsonl", "events-" + source + "-")
  {
  }

  // Whatever the source, the day of a file the store writes is read back from its name.
  lemma LogDayRoundTrip(source: string, d: Day)
    requires 0 <= d.year <= 9999
    ensures ActivityLogDay(FileName(source, d)) == Some(DateText(d))
    ensures source != "" ==> IsSourceLogFile(FileName(source, d), source)
  {
    var day := DateText(d);
    DayTakesTenCharacters(d);
    if source == "" {
      assert "" + day == day;
      LastPart("", day);
    } else {
      LastPart(source + "-", day);
      NameParts(source, day);
    }
  }

  // ---------------------------------------------------------------- pruning

  // A directory entry; the modification day matters for the legacy log only.
  datatype FileEntry = FileEntry(name: string, isDir: bool, modified: Option<Day>)

  // What pruneExpiredFilesLocked removes, given the first day to keep.
  predicate Expired(e: FileEntry, keepFrom: string)
  {
    !e.isDir &&
    if e.name == LEGACY then e.modified.Some? && Less(DateText(e.modified.value), keepFrom)
    else ActivityLogDay(e.name).Some? && Less(ActivityLogDay(e.name).value, keepFrom)
  }

  function KeepFrom(today: Day, retentionDays: nat): string
    requires retentionDays > 0
  {
    DateText(DaysAgo(today, retentionDays - 1))
  }

  function ExpiredNames(entries: seq<FileEntry>, keepFrom: string): set<string> {
    if entries == [] then {}
    else
      var last := entries[|entries| - 1];
      ExpiredNames(entries[..|entries| - 1], keepFrom) + if Expired(last, keepFrom) then {last.name} else {}
  }

  lemma {:induction false} ExpiredNamesMembers(entries: seq<FileEntry>, keepFrom: string, name: string)
    ensures name in ExpiredNames(entries, keepFrom)
       <==> exists i :: 0 <= i < |entries| && entries[i].name == name && Expired(entries[i], keepFrom)
  {
    hide Expired;
    if entries != [] {
      var front := entries[..|entries| - 1];
      ExpiredNamesMembers(front, keepFrom, name);
      if i :| 0 <= i < |entries| && entries[i].name == name && Expired(entries[i], keepFrom) {
        assert i < |front| ==> front[i] == entries[i];
      }
    }
  }

  lemma {:induction false} ExpiredNamesGrow(entries: seq<FileEntry>, keepFrom: string, n: nat)
    requires n <= |entries|
    ensures ExpiredNames(entries[..n], keepFrom) <= ExpiredNames(entries, keepFrom)
    decreases |entries|
  {
    if n < |entries| {
      var front := entries[..|entries| - 1];
      assert front[..n] == entries[..n];
      ExpiredNamesGrow(front, keepFrom, n);
    } else {
      assert entries[..n] == entries;
    }
  }

  lemma ExpiredNamesStep(entries: seq<FileEntry>, keepFrom: string, i: nat)
    requires i < |entries|
    ensures var before := ExpiredNames(entries[..i], keepFrom);
            && ExpiredNames(entries[..i + 1], keepFrom) == (if Expired(entries[i], keepFrom) then before + {entries[i].name} else before)
            && ExpiredNames(entries[..i + 1], keepFrom) <= ExpiredNames(entries, keepFrom)
  {
    hide Expired;
    assert entries[..i + 1][..i] == entries[..i];
    ExpiredNamesGrow(entries, keepFrom, i + 1);
  }

  predicate Blocks(e: FileEntry, keepFrom: string, undeletable: set<string>) {
    Expired(e, keepFrom) && e.name in undeletable
  }

  lemma NoneExpired(keepFrom: string)
    ensures ExpiredNames([], keepFrom) == {}
  {
  }

  lemma NoLogNoDay(name: string)
    ensures !IsActivityLogFile(name) ==> ActivityLogDay(name) == None
  {
  }

  // Removing a file may fail; the loop stops at the first failure.
  method PruneExpired(entries: seq<FileEntry>, today: Day, retentionDays: int, undeletable: set<string>)
      returns (removed: set<string>, ok: bool)
    ensures retentionDays <= 0 ==> removed == {} && ok
    ensures retentionDays > 0 ==>
              var expired := ExpiredNames(entries, KeepFrom(today, retentionDays));
              && removed <= expired - undeletable
              && (ok <==> expired !! undeletable)
              && (ok ==> removed == expired)
    ensures !ok ==> exists i :: 0 <= i < |entries| && Blocks(entries[i], KeepFrom(today, retentionDays), undeletable)
                      && removed == ExpiredNames(entries[..i], KeepFrom(today, retentionDays))
  {
    removed, ok := {}, true;
    if retentionDays <= 0 {
      return;
    }
    var keepFrom := DateText(DaysAgo(today, retentionDays - 1));
    hide DateText, DaysAgo, Less, ActivityLogDay, IsActivityLogFile, ExpiredNames;
    NoneExpired(keepFrom);
    assert entries[..0] == [];
    for i := 0 to |entries|
      invariant ok && removed == ExpiredNames(entries[..i], keepFrom) && removed !! undeletable
    {
      var e := entries[i];
      ExpiredNamesStep(entries, keepFrom, i);
      if e.isDir {
        continue;
      }
      if e.name == LEGACY {
        if e.modified.Some? && Less(DateText(e.modified.value), keepFrom) {
          if e.name in undeletable {
            ok := false;
            return;
          }
          removed := removed + {e.name};
        }
        continue;
      }
      NoLogNoDay(e.name);
      if !IsActivityLogFile(e.name) {
        continue;
      }
      var day := ActivityLogDay(e.name);
      if day.None? {
        continue;
      }
      if Less(day.value, keepFrom) {
        if e.name in undeletable {
          ok := false;
          return;
        }
        removed := removed + {e.name};
      }
    }
    assert entries[..|entries|] == entries;
  }

  // ---------------------------------------------------------------- cutoffs beyond the year 9999

  // The first four digits of a year.
  function FirstFour(y: nat): (n: nat)
    ensures n <= 9999
  {
    if y <= 9999 then y else FirstFour(y / 10)
  }

  lemma FourDigits(n: nat)
    requires 1000 <= n <= 9999
    ensures Digits(n) == 4
  {
    assert Digits(n / 10 / 10 / 10) == 1;
    assert Digits(n / 10 / 10) == 2;
  }

  lemma LongYear(y: nat) returns (rest: string)
    requires y >= 10000
    ensures YearText(y) == Pad(FirstFour(y), 4) + rest && rest != "" && rest[0] >= '0'
  {
    if y / 10 <= 9999 {
      FourDigits(y / 10);
      rest := [Digit(y % 10)];
    } else {
      var front := LongYear(y / 10);
      rest := front + [Digit(y % 10)];
      assert YearText(y) == Pad(FirstFour(y), 4) + front + [Digit(y % 10)];
    }
  }

  // A day of a four-digit year comes before one of a longer year, as text, exactly if its year is at most
  // the longer year's first four digits.
  lemma TextOrderOfLongYears(a: Day, b: Day)
    requires 0 <= a.year <= 9999 && b.year >= 10000
    ensures Less(DateText(a), DateText(b)) <==> a.year <= FirstFour(b.year)
  {
    var rest := LongYear(b.year);
    var ya, yb := Pad(a.year, 4), Pad(FirstFour(b.year), 4);
    var ta := "-" + (Pad(a.month, 2) + ("-" + Pad(a.day, 2)));
    var tb := rest + ("-" + (Pad(b.month, 2) + ("-" + Pad(b.day, 2))));
    assert DateText(a) == ya + ta && DateText(b) == yb + tb;
    assert Less(ta, tb) by {
      assert ta[0] == '-' && tb[0] == rest[0];
    }
    assert Pow10(4) == 10000;
    PadOrder(a.year, FirstFour(b.year), 4);
    LessByParts(ya, yb, ta, tb);
  }

  lemma TextOrderExactly(a: Day, b: Day)
    requires 0 <= a.year <= 9999
    ensures Less(DateText(a), DateText(b)) <==> if b.year <= 9999 then DayNumber(a) < DayNumber(b) else a.year <= FirstFour(b.year)
    ensures b.year >= 10000 ==> DayNumber(a) < DayNumber(b)
  {
    if b.year <= 9999 {
      TextOrderIsCalendarOrder(a, b);
    } else {
      PrecedingIsFewerDays(a, b);
      TextOrderOfLongYears(a, b);
    }
  }

  lemma ExpiredIsTextOrder(source: string, d: Day, modified: Option<Day>, first: Day)
    requires 0 <= d.year <= 9999
    ensures Expired(FileEntry(FileName(source, d), false, modified), DateText(first)) <==> Less(DateText(d), DateText(first))
  {
    LogDayRoundTrip(source, d);
  }

  // The legacy log goes by the day it was last written, and nothing else in the directory ever expires.
  lemma OtherFilesExpire(e: FileEntry, today: Day, retentionDays: nat)
    requires retentionDays > 0 && today.year <= 9999
    ensures e.isDir || (e.name != LEGACY && !(HasPrefix(e.name, "events-") && HasSuffix(e.name, ".jsonl"))) ==>
              !Expired(e, KeepFrom(today, retentionDays))
    ensures e.name == LEGACY && !e.isDir ==>
              (e.modified.None? ==> !Expired(e, KeepFrom(today, retentionDays)))
              && (e.modified.Some? && 0 <= e.modified.value.year <= 9999 ==>
                    (Expired(e, KeepFrom(today, retentionDays))
                     <==> DayNumber(e.modified.value) < DayNumber(today) - (retentionDays - 1)))
  {
    DaysAgoCounts(today, retentionDays - 1);
    NoLogNoDay(e.name);
    if e.modified.Some? && 0 <= e.modified.value.year <= 9999 {
      TextOrderIsCalendarOrder(e.modified.value, DaysAgo(today, retentionDays - 1));
    }
    hide DateText, DayNumber, DaysAgo, Less, ActivityLogDay;
  }

  // Whatever the date, a file the store wrote expires exactly if its day precedes the last
  // `retentionDays` days, as long as those begin by the year 9999; later the first four digits of their
  // first year decide, so that files of larger years are kept although they are too old.
  lemma ExpiredExactly(source: string, d: Day, modified: Option<Day>, today: Day, retentionDays: nat)
    requires 0 <= d.year <= 9999 && retentionDays > 0
    ensures var first := DaysAgo(today, retentionDays - 1);
            && DayNumber(first) == DayNumber(today) - (retentionDays - 1)
            && (first.year >= 10000 ==> DayNumber(d) < DayNumber(first))
            && (Expired(FileEntry(FileName(source, d), false, modified), KeepFrom(today, retentionDays))
                <==> if first.year <= 9999 then DayNumber(d) < DayNumber(first) else d.year <= FirstFour(first.year))
  {
    hide Expired, DateText, Less, DayNumber, DaysAgo, FirstFour, FileName;
    var first := DaysAgo(today, retentionDays - 1);
    ExpiredIsTextOrder(source, d, modified, first);
    DaysAgoCounts(today, retentionDays - 1);
    TextOrderExactly(d, first);
  }

  // Up to the year 9999, then, a file the store wrote is expired exactly when its day is earlier than the last `retentionDays`
  // days, today included, in the Gregorian calendar.
  lemma ExpiredMeansTooOld(source: string, d: Day, modified: Option<Day>, today: Day, retentionDays: nat)
    requires 0 <= d.year <= 9999 && today.year <= 9999 && retentionDays > 0
    ensures Expired(FileEntry(FileName(source, d), false, modified), KeepFrom(today, retentionDays))
       <==> DayNumber(d) < DayNumber(today) - (retentionDays - 1)
  {
    hide Expired, KeepFrom, DayNumber, DaysAgo, FirstFour, FileName;
    ExpiredExactly(source, d, modified, today, retentionDays);
    DaysAgoCounts(today, retentionDays - 1);
  }

  // For one, from the year 10000 to 19999 no file of the years 2000 to 9999 ever expires.
  lemma FiveDigitYearsKeepOldFiles(source: string, d: Day, modified: Option<Day>, today: Day, retentionDays: nat)
    requires 2000 <= d.year <= 9999 && retentionDays > 0
    requires 10000 <= DaysAgo(today, retentionDays - 1).year <= 19999
    ensures DayNumber(d) < DayNumber(today) - (retentionDays - 1)
    ensures !Expired(FileEntry(FileName(source, d), false, modified), KeepFrom(today, retentionDays))
  {
    ExpiredExactly(source, d, modified, today, retentionDays);
    assert FirstFour(DaysAgo(today, retentionDays - 1).year) == DaysAgo(today, retentionDays - 1).year / 10;
  }

  // ---------------------------------------------------------------- the order files are queried in

  ghost predicate Sorted(names: seq<string>) {
    forall i, j :: 0 <= i < j < |names| ==> Less(names[i], names[j])
  }

  // queryFiles after sorting visits the legacy log last, although its events are the oldest: it sorts
  // after every other log file.
  lemma LegacyLogSortsLast(names: seq<string>)
    requires Sorted(names) && forall n :: n in names ==> IsActivityLogFile(n)
    ensures Sorted(names + [LEGACY])
  {
    forall n | n in names ensures Less(n, LEGACY) {
      var rest := n[7..];
      assert n == "events-" + rest && LEGACY == "events." + "jsonl";
      LessByParts("events-", "events.", rest, "jsonl");
      assert "events-" == "events" + "-" && "events." == "events" + ".";
      LessByParts("events", "events", "-", ".");
      LessIsStrict("events");
    }
  }

  // Before it come, of all logs, first the primary ones and then those of the sources whose name starts
  // with a letter: every day of the primary log is visited before any day of such a source.
  lemma PrimaryLogsSortFirst(source: string, primary: Day, d: Day)
    requires source != "" && 'a' <= source[0] <= 'z' && 0 <= primary.year
    ensures Less(FileName("", primary), FileName(source, d))
  {
    var rest, rest' := DateText(primary) + ".jsonl", source + "-" + DateText(d) + ".jsonl";
    assert FileName("", primary) == "events-" + rest && FileName(source, d) == "events-" + rest';
    LessByParts("events-", "events-", rest, rest');
    LessIsStrict("events-");
    FirstDigit(primary.year, if primary.year <= 9999 then 4 else Digits(primary.year));
    assert rest[0] == YearText(primary.year)[0] && rest'[0] == source[0];
  }
}

// The order in which Store.Query of internal/activity/activity.go reads the logs, and what a limited query
// keeps: queryFiles sorts the names of the files, Query keeps the last matching events.

module QueryOrder {
  import opened GoSlices
  import opened GoText
  import ActivityFiles
  import opened ActivityQuery

  // The log of a source's day (the primary log has no source), and the log from before there was one a day.
  datatype LogFile = Dated(source: string, day: ActivityFiles.Day) | Legacy

  function NameOf(file: LogFile): string {
    if file.Legacy? then ActivityFiles.LEGACY else ActivityFiles.FileName(file.source, file.day)
  }

  const DAY := 24 * 60 * 60 * 1000000000

  // The number of the day an event happened on, instants being nanoseconds from the start of the year 1.
  function DayOf(e: Event): int {
    e.timestamp / DAY + ActivityFiles.DayNumber(ActivityFiles.Date(1, 1, 1))
  }

  // The sources whose events Store.Record writes to the primary log before it writes them to their own.
  const COPIED := {"server", "bridge"}

  // Store.Record puts an event in the logs of its day and source; the legacy log was written in order.
  ghost predicate Fits(held: FileRead, file: LogFile) {
    match file
    case Dated(source, day) => forall e :: Logged(e) in FileLines(held) ==> DayOf(e) == ActivityFiles.DayNumber(day) && Belongs(e, source)
    case Legacy => Ascending(FileLines(held))
  }

  predicate Belongs(e: Event, source: string) {
    var own := ActivityFiles.NormalizeSourceName(e.source);
    if source == "" then own == "" || own in COPIED else own == source
  }

  // A log all of whose events are also in the primary log of its day.
  predicate Copied(files: seq<LogFile>, file: LogFile) {
    file.Dated? && file.source in COPIED && Dated("", file.day) in files
  }

  ghost predicate Contain(held: seq<FileRead>, files: seq<LogFile>) {
    && |held| == |files|
    && (forall i :: 0 <= i < |files| ==> Fits(held[i], files[i]))
    && (forall i, j :: 0 <= i < |files| && 0 <= j < |files| && CopyOf(files[j], files[i]) ==>
          forall line :: line in FileLines(held[j]) && line.Logged? ==> line in FileLines(held[i]))
  }

  predicate CopyOf(file: LogFile, primary: LogFile) {
    file.Dated? && file.source in COPIED && primary == Dated("", file.day)
  }

  // No matching event that was left out is of a later day than one that was returned.
  ghost predicate KeepsLatestDays(held: seq<FileRead>, f: Filter) {
    match QuerySpec(held, f)
    case Failed(_) => true
    case Found(events) =>
      forall e, kept :: Logged(e) in AllLines(held) && MatchesFilter(f, e) && e !in events && kept in events ==> DayOf(e) <= DayOf(kept)
  }

  // Whatever the files hold and whatever is asked for.
  ghost predicate Reliable(files: seq<LogFile>) {
    forall held, f :: Contain(held, files) ==> KeepsLatestDays(held, f)
  }

  // But for logs that only repeat primary ones.
  ghost predicate InOrder(files: seq<LogFile>) {
    forall i, j :: 0 <= i < j < |files| && !Copied(files, files[i]) && !Copied(files, files[j]) ==> NotLater(files[i], files[j])
  }

  predicate NotLater(a: LogFile, b: LogFile) {
    a.Dated? && b.Dated? && ActivityFiles.DayNumber(a.day) <= ActivityFiles.DayNumber(b.day)
  }

  // ---------------------------------------------------------------- files in order

  ghost predicate Ascending(lines: seq<Line>) {
    forall i, j :: 0 <= i < j < |lines| && lines[i].Logged? && lines[j].Logged? ==> DayOf(lines[i].event) <= DayOf(lines[j].event)
  }

  ghost predicate AscendingEvents(es: seq<Event>) {
    forall i, j :: 0 <= i < j < |es| ==> DayOf(es[i]) <= DayOf(es[j])
  }

  lemma {:induction false} LineOfSomeFile(held: seq<FileRead>, line: Line) returns (k: nat)
    requires line in AllLines(held)
    ensures k < |held| && line in FileLines(held[k])
  {
    if line in FileLines(held[0]) {
      k := 0;
    } else {
      k := LineOfSomeFile(held[1..], line);
      k := k + 1;
    }
  }

  lemma {:induction false} SelectJoin(a: seq<Line>, b: seq<Line>, f: Filter)
    ensures Select(a + b, f) == Select(a, f) + Select(b, f)
  {
    if a == [] {
      assert a + b == b;
    } else {
      assert (a + b)[1..] == a[1..] + b;
      SelectJoin(a[1..], b, f);
    }
  }

  lemma {:induction false} DedupJoin(a: seq<Event>, b: seq<Event>, seen: set<Event>)
    ensures Dedup(a + b, seen) == Dedup(a, seen) + Dedup(b, seen + set e | e in a)
  {
    if a == [] {
      assert a + b == b && seen + (set e | e in a) == seen;
    } else {
      assert (a + b)[1..] == a[1..] + b;
      var now := if a[0] in seen then seen else seen + {a[0]};
      DedupJoin(a[1..], b, now);
      assert now + (set e | e in a[1..]) == seen + set e | e in a;
    }
  }

  lemma {:induction false} SelectAscends(lines: seq<Line>, f: Filter)
    requires Ascending(lines)
    ensures AscendingEvents(Select(lines, f))
  {
    if lines != [] {
      SelectAscends(lines[1..], f);
      if lines[0].Logged? {
        SelectMembers(lines[1..], f);
        var rest := Select(lines[1..], f);
        forall i | 0 <= i < |rest| ensures DayOf(lines[0].event) <= DayOf(rest[i]) {
          assert rest[i] in rest;
          var k :| 0 <= k < |lines[1..]| && lines[1..][k] == Logged(rest[i]);
          assert lines[k + 1] == Logged(rest[i]);
        }
      }
    }
  }

  lemma {:induction false} DedupAscends(es: seq<Event>, seen: set<Event>)
    requires AscendingEvents(es)
    ensures AscendingEvents(Dedup(es, seen))
  {
    if es != [] {
      DedupAscends(es[1..], seen);
      DedupAscends(es[1..], seen + {es[0]});
      var rest := Dedup(es[1..], seen + {es[0]});
      DedupMembers(es[1..], seen + {es[0]});
      forall i | 0 <= i < |rest| ensures DayOf(es[0]) <= DayOf(rest[i]) {
        assert rest[i] in rest;
        var k :| 0 <= k < |es[1..]| && es[1..][k] == rest[i];
        assert es[k + 1] == rest[i];
      }
    }
  }

  lemma AscendingJoin(first: seq<Event>, rest: seq<Event>)
    requires AscendingEvents(first) && AscendingEvents(rest)
    requires forall e, later :: e in first && later in rest ==> DayOf(e) <= DayOf(later)
    ensures AscendingEvents(first + rest)
  {
    hide DayOf;
    var es := first + rest;
    forall i, j | 0 <= i < j < |es| ensures DayOf(es[i]) <= DayOf(es[j]) {
      if i < |first| <= j {
        assert es[i] in first && es[j] in rest;
      }
    }
  }

  lemma FileAscends(held: FileRead, file: LogFile)
    requires Fits(held, file)
    ensures Ascending(FileLines(held))
  {
    var lines := FileLines(held);
    assert file.Dated? ==> forall i :: 0 <= i < |lines| && lines[i].Logged? ==> Logged(lines[i].event) in lines;
  }

  // The primary log is listed before the logs that repeat it.
  ghost predicate PrimaryFirst(files: seq<LogFile>) {
    forall i, j :: 0 <= i < |files| && 0 <= j < |files| && CopyOf(files[j], files[i]) ==> i < j
  }

  // What a log holds that repeats none comes after all that was read before it.
  lemma EarlierFilesAreNotLater(held: seq<FileRead>, files: seq<LogFile>, i: nat, n: nat, e: Event, later: Event)
    requires Contain(held, files) && InOrder(files) && PrimaryFirst(files) && i < n < |files| && !Copied(files, files[n])
    requires Logged(e) in FileLines(held[i]) && Logged(later) in FileLines(held[n])
    ensures DayOf(e) <= DayOf(later)
  {
    hide DayOf, Belongs;
    assert Fits(held[i], files[i]) && Fits(held[n], files[n]);
    var k := i;
    if Copied(files, files[i]) {
      k :| 0 <= k < |files| && files[k] == Dated("", files[i].day);
      assert CopyOf(files[i], files[k]);
      assert "" !in COPIED;
    }
    assert NotLater(files[k], files[n]);
  }

  // A log that repeats one adds nothing.
  lemma CopyIsKnown(held: seq<FileRead>, files: seq<LogFile>, n: nat, f: Filter)
    requires Contain(held, files) && PrimaryFirst(files) && n < |files| && Copied(files, files[n])
    ensures forall e :: e in Select(FileLines(held[n]), f) ==> e in Select(AllLines(held[..n]), f)
  {
    var k :| 0 <= k < |files| && files[k] == Dated("", files[n].day);
    assert CopyOf(files[n], files[k]) && k < n;
    SelectMembers(FileLines(held[n]), f);
    SelectMembers(AllLines(held[..n]), f);
    assert held[..n] == held[..k] + ([held[k]] + held[k + 1..n]);
    AllLinesJoin(held[..k], [held[k]] + held[k + 1..n]);
    AllLinesJoin([held[k]], held[k + 1..n]);
    assert AllLines([held[k]]) == FileLines(held[k]) by {
      assert [held[k]][1..] == [];
    }
  }

  lemma {:induction false} NothingAdded(more: seq<Event>, seen: set<Event>)
    requires forall e :: e in more ==> e in seen
    ensures Dedup(more, seen) == []
  {
    if more != [] {
      NothingAdded(more[1..], seen);
    }
  }

  lemma AddedComeLater(held: seq<FileRead>, files: seq<LogFile>, n: nat, f: Filter, seen: set<Event>)
    requires Contain(held, files) && InOrder(files) && PrimaryFirst(files) && n < |files| && !Copied(files, files[n])
    ensures var added := Dedup(Select(FileLines(held[n]), f), seen);
            && AscendingEvents(added)
            && forall e, later :: e in Dedup(Select(AllLines(held[..n]), f), {}) && later in added ==> DayOf(e) <= DayOf(later)
  {
    var before, lines := AllLines(held[..n]), FileLines(held[n]);
    FileAscends(held[n], files[n]);
    SelectAscends(lines, f);
    DedupAscends(Select(lines, f), seen);
    DedupMembers(Select(before, f), {});
    DedupMembers(Select(lines, f), seen);
    SelectMembers(before, f);
    SelectMembers(lines, f);
    hide DayOf, Select, Dedup, AllLines, Copied, InOrder, PrimaryFirst, Contain;
    forall e, later | e in Dedup(Select(before, f), {}) && later in Dedup(Select(lines, f), seen) ensures DayOf(e) <= DayOf(later) {
      var i := LineOfSomeFile(held[..n], Logged(e));
      assert held[..n][i] == held[i];
      EarlierFilesAreNotLater(held, files, i, n, e, later);
    }
  }

  lemma {:induction false} FoundAscend(held: seq<FileRead>, files: seq<LogFile>, n: nat, f: Filter)
    requires Contain(held, files) && InOrder(files) && PrimaryFirst(files) && n <= |files|
    ensures AscendingEvents(Dedup(Select(AllLines(held[..n]), f), {}))
  {
    if n > 0 {
      FoundAscend(held, files, n - 1, f);
      OneFileMore(held, files, n - 1, f);
    }
    hide *;
  }

  lemma SameLength(held: seq<FileRead>, files: seq<LogFile>)
    requires Contain(held, files)
    ensures |held| == |files|
  {
  }

  lemma OneFileMore(held: seq<FileRead>, files: seq<LogFile>, n: nat, f: Filter)
    requires Contain(held, files) && InOrder(files) && PrimaryFirst(files) && n < |files|
    requires AscendingEvents(Dedup(Select(AllLines(held[..n]), f), {}))
    ensures AscendingEvents(Dedup(Select(AllLines(held[..n + 1]), f), {}))
  {
    hide *;
    SameLength(held, files);
    var before, lines := AllLines(held[..n]), FileLines(held[n]);
    var known, more := Select(before, f), Select(lines, f);
    var seen := {} + set e | e in known;
    assert held[..n + 1] == held[..n] + [held[n]];
    AllLinesAppend(held[..n], held[n]);
    SelectJoin(before, lines, f);
    DedupJoin(known, more, {});
    if Copied(files, files[n]) {
      CopyIsKnown(held, files, n, f);
      NothingAdded(more, seen);
      assert Dedup(known, {}) + [] == Dedup(known, {});
    } else {
      AddedComeLater(held, files, n, f, seen);
      AscendingJoin(Dedup(known, {}), Dedup(more, seen));
    }
  }

  lemma LastOfAscending(all: seq<Event>, n: nat, e: Event, kept: Event)
    requires AscendingEvents(all) && e in all && e !in LastN(all, n) && kept in LastN(all, n)
    ensures DayOf(e) <= DayOf(kept)
  {
    hide DayOf;
    var i :| 0 <= i < |all| && all[i] == e;
    var j :| 0 <= j < |LastN(all, n)| && LastN(all, n)[j] == kept;
    assert |all| > n;
    assert all[|all| - n + j] == kept;
    forall k | |all| - n <= k < |all| ensures all[k] in LastN(all, n) {
      assert LastN(all, n)[k - (|all| - n)] == all[k];
    }
  }

  lemma OrderedFilesAreReliable(files: seq<LogFile>)
    requires InOrder(files) && PrimaryFirst(files)
    ensures Reliable(files)
  {
    forall held, f | Contain(held, files) ensures KeepsLatestDays(held, f) {
      if QuerySpec(held, f).Found? {
        assert held[..|files|] == held;
        FoundAscend(held, files, |files|, f);
        SelectMembers(AllLines(held), f);
        var chosen := Select(AllLines(held), f);
        DedupMembers(chosen, {});
        var events := QuerySpec(held, f).events;
        forall e, kept | Logged(e) in AllLines(held) && MatchesFilter(f, e) && e !in events && kept in events
          ensures DayOf(e) <= DayOf(kept)
        {
          LastOfAscending(Dedup(chosen, {}), ClampQueryLimit(f.limit), e, kept);
        }
      }
    }
  }

  // ---------------------------------------------------------------- files out of order

  // An event of a source at noon of the day with this number.
  function EventOn(source: string, day: int): (e: Event)
    ensures DayOf(e) == day && e.source == source
  {
    var e := Event((day - ActivityFiles.DayNumber(ActivityFiles.Date(1, 1, 1))) * DAY + DAY / 2,
                   source, "", "", "", "", "", 0, 0, "", "", "", "", "", "", "", "", "");
    e
  }

  // The last event, whatever it is.
  const LAST := Filter("", "", "", "", "", "", "", "", "", "", "", 0, 0, 1)

  function Holding(lines: seq<Line>): FileRead {
    Contents(lines, false)
  }

  function Blanks(n: nat): seq<FileRead> {
    seq(n, i => Holding([]))
  }

  // The i-th of n files holds one event, the j-th another, and the others nothing.
  function TwoEvents(n: nat, i: nat, e: Event, j: nat, e': Event): seq<FileRead>
    requires i < j < n
  {
    Blanks(i) + [Holding([Logged(e)])] + (Blanks(j - i - 1) + [Holding([Logged(e')])]) + Blanks(n - j - 1)
  }

  lemma {:induction false} AllLinesJoin(a: seq<FileRead>, b: seq<FileRead>)
    ensures AllLines(a + b) == AllLines(a) + AllLines(b)
  {
    if a == [] {
      assert a + b == b;
    } else {
      assert (a + b)[1..] == a[1..] + b;
      AllLinesJoin(a[1..], b);
    }
  }

  lemma {:induction false} BlanksHoldNothing(n: nat)
    ensures AllLines(Blanks(n)) == []
  {
    if n > 0 {
      assert Blanks(n)[1..] == Blanks(n - 1);
      BlanksHoldNothing(n - 1);
    }
  }

  lemma OneLine(line: Line)
    ensures AllLines([Holding([line])]) == [line]
  {
    assert [Holding([line])][1..] == [];
  }

  lemma LinesOfTwo(n: nat, i: nat, e: Event, j: nat, e': Event)
    requires i < j < n
    ensures AllLines(TwoEvents(n, i, e, j, e')) == [Logged(e), Logged(e')]
    ensures FirstError(TwoEvents(n, i, e, j, e')) == None
  {
    var a, b := [Holding([Logged(e)])], [Holding([Logged(e')])];
    var held := TwoEvents(n, i, e, j, e');
    assert forall k :: 0 <= k < |held| ==> FileError(held[k]).None?;
    FirstErrorAt(held, |held|);
    hide AllLines;
    BlanksHoldNothing(i);
    BlanksHoldNothing(j - i - 1);
    BlanksHoldNothing(n - j - 1);
    OneLine(Logged(e));
    OneLine(Logged(e'));
    AllLinesJoin(Blanks(i), a);
    AllLinesJoin(Blanks(j - i - 1), b);
    AllLinesJoin(Blanks(i) + a, Blanks(j - i - 1) + b);
    AllLinesJoin(Blanks(i) + a + (Blanks(j - i - 1) + b), Blanks(n - j - 1));
  }

  lemma TwoMatching(e: Event, e': Event, f: Filter)
    requires MatchesFilter(f, e) && MatchesFilter(f, e')
    ensures Select([Logged(e), Logged(e')], f) == [e, e']
  {
    hide MatchesFilter;
    SelectAppend([], Logged(e), f);
    SelectAppend([Logged(e)], Logged(e'), f);
    assert [Logged(e)] + [Logged(e')] == [Logged(e), Logged(e')] && [] + [Logged(e)] == [Logged(e)];
  }

  lemma TwoDistinct(e: Event, e': Event)
    requires e != e'
    ensures Dedup([e, e'], {}) == [e, e']
  {
    DedupAppend([], e, {});
    DedupAppend([e], e', {});
    assert [] + [e] == [e] && [e] + [e'] == [e, e'];
  }

  // Of two events in different files, a query for one returns that of the later file, be it ever so old.
  lemma LaterFileWins(n: nat, i: nat, e: Event, j: nat, e': Event)
    requires i < j < n && e != e' && MatchesFilter(LAST, e) && MatchesFilter(LAST, e')
    ensures QuerySpec(TwoEvents(n, i, e, j, e'), LAST) == Found([e'])
    ensures DayOf(e') < DayOf(e) ==> !KeepsLatestDays(TwoEvents(n, i, e, j, e'), LAST)
  {
    var held := TwoEvents(n, i, e, j, e');
    LinesOfTwo(n, i, e, j, e');
    assert ClampQueryLimit(LAST.limit) == 1;
    hide AllLines, TwoEvents, MatchesFilter, ClampQueryLimit, FirstError, DayOf, Select, Dedup;
    TwoMatching(e, e', LAST);
    TwoDistinct(e, e');
    assert Logged(e) in AllLines(held) && e !in [e'] && e' in [e'];
  }

  function SourceOf(file: LogFile): string {
    if file.Dated? then file.source else ""
  }

  // What two files out of order may hold to show it: an event of the later day in the first one and one of
  // the earlier day in the second.
  function NewerEvent(a: LogFile, b: LogFile): Event {
    EventOn(SourceOf(a),
            if a.Dated? then ActivityFiles.DayNumber(a.day)
            else if b.Dated? then ActivityFiles.DayNumber(b.day) + 1 else 1)
  }

  function OlderEvent(a: LogFile, b: LogFile): Event {
    EventOn(SourceOf(b),
            if b.Dated? then ActivityFiles.DayNumber(b.day)
            else if a.Dated? then ActivityFiles.DayNumber(a.day) - 1 else 0)
  }

  ghost predicate Normalized(files: seq<LogFile>) {
    forall i :: 0 <= i < |files| && files[i].Dated? ==> ActivityFiles.Normal(files[i].source)
  }

  predicate EventFits(e: Event, file: LogFile) {
    file.Dated? ==> DayOf(e) == ActivityFiles.DayNumber(file.day) && Belongs(e, file.source)
  }

  lemma NewAndOldFit(a: LogFile, b: LogFile)
    requires a.Dated? ==> ActivityFiles.Normal(a.source)
    requires b.Dated? ==> ActivityFiles.Normal(b.source)
    ensures EventFits(NewerEvent(a, b), a) && EventFits(OlderEvent(a, b), b)
    ensures MatchesFilter(LAST, NewerEvent(a, b)) && MatchesFilter(LAST, OlderEvent(a, b))
    ensures !NotLater(a, b) ==> DayOf(OlderEvent(a, b)) < DayOf(NewerEvent(a, b))
  {
    ActivityFiles.NormalIsUntouched(SourceOf(a));
    ActivityFiles.NormalIsUntouched(SourceOf(b));
    hide ActivityFiles.NormalizeSourceName, ActivityFiles.DayNumber;
  }

  lemma TwoEventsFit(files: seq<LogFile>, i: nat, e: Event, j: nat, e': Event)
    requires i < j < |files| && !Copied(files, files[i]) && !Copied(files, files[j])
    requires EventFits(e, files[i]) && EventFits(e', files[j])
    ensures Contain(TwoEvents(|files|, i, e, j, e'), files)
  {
    var held := TwoEvents(|files|, i, e, j, e');
    hide DayOf, Belongs;
    assert held[i] == Holding([Logged(e)]) && held[j] == Holding([Logged(e')]);
    assert forall k :: 0 <= k < |files| && k != i && k != j ==> held[k] == Holding([]);
    hide TwoEvents;
    forall k | 0 <= k < |files| ensures Fits(held[k], files[k]) {
    }
    forall p, c | 0 <= p < |files| && 0 <= c < |files| && CopyOf(files[c], files[p])
      ensures FileLines(held[c]) == []
    {
      assert files[p] in files;
      assert Copied(files, files[c]);
    }
  }

  // If the primary logs are listed before those that repeat them, a limited query is reliable exactly if
  // among the other files the legacy log is not in company and none is of a later day than one after it.
  lemma ReliableExactly(files: seq<LogFile>)
    requires Normalized(files) && PrimaryFirst(files)
    ensures Reliable(files) <==> InOrder(files)
  {
    if InOrder(files) {
      OrderedFilesAreReliable(files);
    } else {
      var i, j :| 0 <= i < j < |files| && !Copied(files, files[i]) && !Copied(files, files[j]) && !NotLater(files[i], files[j]);
      var e, e' := NewerEvent(files[i], files[j]), OlderEvent(files[i], files[j]);
      NewAndOldFit(files[i], files[j]);
      TwoEventsFit(files, i, e, j, e');
      LaterFileWins(|files|, i, e, j, e');
      hide *;
    }
  }

  // For one: after any day's log comes the legacy log, and a query for one event returns an event of the day
  // before from it instead of the newer one.
  lemma LegacyLogHidesNewerEvent(d: ActivityFiles.Day)
    ensures var e, e' := NewerEvent(Dated("", d), Legacy), OlderEvent(Dated("", d), Legacy);
            var held := [Holding([Logged(e)]), Holding([Logged(e')])];
            && Contain(held, [Dated("", d), Legacy])
            && DayOf(e') < DayOf(e) == ActivityFiles.DayNumber(d)
            && QuerySpec(held, LAST) == Found([e'])
  {
    var files := [Dated("", d), Legacy];
    var e, e' := NewerEvent(files[0], files[1]), OlderEvent(files[0], files[1]);
    NewAndOldFit(files[0], files[1]);
    assert "" !in COPIED;
    TwoEventsFit(files, 0, e, 1, e');
    LaterFileWins(2, 0, e, 1, e');
    assert TwoEvents(2, 0, e, 1, e') == [Holding([Logged(e)]), Holding([Logged(e')])];
    assert DayOf(e) == ActivityFiles.DayNumber(d);
    hide *;
  }

  // ---------------------------------------------------------------- files sorted by name

  function Names(files: seq<LogFile>): seq<string> {
    seq(|files|, i requires 0 <= i < |files| => NameOf(files[i]))
  }

  // What queryFiles lists of the logs the store writes: sorted by name, and of years with four digits.
  ghost predicate Listed(files: seq<LogFile>) {
    && ActivityFiles.Sorted(Names(files)) && Normalized(files)
    && forall i :: 0 <= i < |files| && files[i].Dated? ==> 0 <= files[i].day.year <= 9999
  }

  lemma ListedPrimaryFirst(files: seq<LogFile>)
    requires Listed(files)
    ensures PrimaryFirst(files)
  {
    forall i, j | 0 <= i < |files| && 0 <= j < |files| && CopyOf(files[j], files[i]) ensures i < j {
      ActivityFiles.PrimaryLogsSortFirst(files[j].source, files[i].day, files[j].day);
      assert Names(files)[i] == NameOf(files[i]) && Names(files)[j] == NameOf(files[j]);
      OnlyOnceInTheList(Names(files), i, j);
    }
  }

  // A source's logs sort by day.
  lemma SameSourceSortsByDay(source: string, a: ActivityFiles.Day, b: ActivityFiles.Day)
    requires 0 <= a.year <= 9999 && 0 <= b.year <= 9999
    ensures ActivityFiles.Less(ActivityFiles.FileName(source, a), ActivityFiles.FileName(source, b))
       <==> ActivityFiles.DayNumber(a) < ActivityFiles.DayNumber(b)
  {
    ActivityFiles.TextOrderIsCalendarOrder(a, b);
    ActivityFiles.DayTakesTenCharacters(a);
    ActivityFiles.DayTakesTenCharacters(b);
    var front := if source == "" then "events-" else "events-" + source + "-";
    var ta, tb := ActivityFiles.DateText(a), ActivityFiles.DateText(b);
    hide ActivityFiles.DateText, ActivityFiles.DayNumber, ActivityFiles.Less;
    assert ActivityFiles.FileName(source, a) == front + (ta + ".jsonl");
    assert ActivityFiles.FileName(source, b) == front + (tb + ".jsonl");
    ActivityFiles.LessByParts(front, front, ta + ".jsonl", tb + ".jsonl");
    ActivityFiles.LessByParts(ta, tb, ".jsonl", ".jsonl");
    ActivityFiles.LessIsStrict(front);
    ActivityFiles.LessIsStrict(".jsonl");
  }

  // A query over the logs of one source, as they are listed, is reliable.
  lemma OneSourceIsReliable(source: string, files: seq<LogFile>)
    requires Listed(files) && forall i :: 0 <= i < |files| ==> files[i].Dated? && files[i].source == source
    ensures Reliable(files)
  {
    forall i, j | 0 <= i < j < |files| ensures NotLater(files[i], files[j]) {
      assert ActivityFiles.Less(Names(files)[i], Names(files)[j]);
      SameSourceSortsByDay(source, files[i].day, files[j].day);
    }
    ListedPrimaryFirst(files);
    ReliableExactly(files);
  }

  lemma OnlyOnceInTheList(names: seq<string>, i: nat, j: nat)
    requires ActivityFiles.Sorted(names) && i < |names| && j < |names|
    ensures ActivityFiles.Less(names[i], names[j]) ==> i < j
    ensures names[i] == names[j] ==> i == j
  {
    ActivityFiles.LessIsStrict(names[i]);
    if j < i {
      LessIsOneWay(names[i], names[j]);
    }
    assert i < j ==> ActivityFiles.Less(names[i], names[j]);
    assert j < i ==> ActivityFiles.Less(names[j], names[i]);
  }

  lemma {:induction false} LessIsOneWay(a: string, b: string)
    ensures !(ActivityFiles.Less(a, b) && ActivityFiles.Less(b, a))
  {
    if a != "" && b != "" {
      LessIsOneWay(a[1..], b[1..]);
    }
  }

  // Primary logs, those of a source whose name starts with a letter, and perhaps the legacy log: a query over
  // them is reliable exactly if the legacy log is alone or absent, and no primary log is of a later day than
  // one of the source's that does not just repeat a primary one.
  lemma MixedLogsAreReliableExactly(source: string, files: seq<LogFile>)
    requires source != "" && 'a' <= source[0] <= 'z' && Listed(files)
    requires forall i :: 0 <= i < |files| ==> files[i].Dated? ==> files[i].source == "" || files[i].source == source
    ensures Reliable(files)
       <==> && (Legacy in files ==> |files| == 1)
            && forall p, d :: Dated("", p) in files && Dated(source, d) in files && !Copied(files, Dated(source, d)) ==>
                 ActivityFiles.DayNumber(p) <= ActivityFiles.DayNumber(d)
  {
    ListedPrimaryFirst(files);
    ReliableExactly(files);
    if Legacy in files && |files| != 1 {
      LegacyInCompany(files);
    }
    if InOrder(files) {
      OrderBySource(source, files);
    }
    if (Legacy in files ==> |files| == 1)
       && (forall p, d :: Dated("", p) in files && Dated(source, d) in files && !Copied(files, Dated(source, d)) ==>
             ActivityFiles.DayNumber(p) <= ActivityFiles.DayNumber(d)) {
      forall i, j | 0 <= i < j < |files| && !Copied(files, files[i]) && !Copied(files, files[j]) ensures NotLater(files[i], files[j]) {
        assert files[i] in files && files[j] in files;
        assert ActivityFiles.Less(Names(files)[i], Names(files)[j]);
        SortedPairIsInOrder(source, files[i], files[j]);
        assert files[i].source == "" && files[j].source == source ==> Dated("", files[i].day) in files && Dated(source, files[j].day) in files;
      }
    }
  }

  lemma OrderBySource(source: string, files: seq<LogFile>)
    requires source != "" && 'a' <= source[0] <= 'z' && Listed(files) && InOrder(files)
    ensures forall p, d :: Dated("", p) in files && Dated(source, d) in files && !Copied(files, Dated(source, d)) ==>
                 ActivityFiles.DayNumber(p) <= ActivityFiles.DayNumber(d)
  {
    hide ActivityFiles.Less, ActivityFiles.DayNumber, ActivityFiles.FileName, ActivityFiles.Sorted, ActivityFiles.Normal;
    forall p, d | Dated("", p) in files && Dated(source, d) in files && !Copied(files, Dated(source, d))
      ensures ActivityFiles.DayNumber(p) <= ActivityFiles.DayNumber(d)
    {
      var i :| 0 <= i < |files| && files[i] == Dated("", p);
      var j :| 0 <= j < |files| && files[j] == Dated(source, d);
      ActivityFiles.PrimaryLogsSortFirst(source, p, d);
      assert Names(files)[i] == NameOf(files[i]) && Names(files)[j] == NameOf(files[j]);
      OnlyOnceInTheList(Names(files), i, j);
      assert "" !in COPIED && !Copied(files, files[i]);
      assert NotLater(files[i], files[j]);
    }
  }

  // In company the legacy log stands beside some log that repeats none.
  lemma LegacyInCompany(files: seq<LogFile>)
    requires Legacy in files && |files| != 1
    ensures !InOrder(files)
  {
    var k :| 0 <= k < |files| && files[k] == Legacy;
    var company := if k == 0 then 1 else 0;
    var other := company;
    if Copied(files, files[company]) {
      other :| 0 <= other < |files| && files[other] == Dated("", files[company].day);
      assert "" !in COPIED;
    }
    assert !Copied(files, files[k]) && !Copied(files, files[other]);
    assert !NotLater(files[k], files[other]) && !NotLater(files[other], files[k]);
  }

  // Whatever else, a source's log is not read before a primary one.
  lemma SortedPairIsInOrder(source: string, a: LogFile, b: LogFile)
    requires source != "" && 'a' <= source[0] <= 'z' && a.Dated? && b.Dated?
    requires 0 <= a.day.year <= 9999 && 0 <= b.day.year <= 9999
    requires a.source in ["", source] && b.source in ["", source]
    requires ActivityFiles.Less(NameOf(a), NameOf(b))
    ensures a.source == b.source ==> NotLater(a, b)
    ensures a.source != b.source ==> a.source == "" && b.source == source
  {
    if a.source == b.source {
      SameSourceSortsByDay(a.source, a.day, b.day);
    } else if a.source == source {
      ActivityFiles.PrimaryLogsSortFirst(source, b.day, a.day);
      LessIsOneWay(NameOf(a), NameOf(b));
    }
  }
}

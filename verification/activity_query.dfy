// Store.Query of internal/activity/activity.go: one pass over the log files, deduplicating as it goes
// and keeping a window of the newest matches.

module ActivityQuery {
  import opened GoSlices
  import opened GoText

  const DEFAULT_QUERY_LIMIT := 200
  const MAX_QUERY_LIMIT := 1000

  // Instants are counted from Go's zero time, which is therefore 0.
  datatype Event = Event(
    timestamp: int,
    source: string,
    requestId: string,
    sessionId: string,
    agentId: string,
    httpMethod: string,
    path: string,
    status: int,
    durationMs: int,
    remoteAddr: string,
    instanceId: string,
    profileId: string,
    profileName: string,
    tabId: string,
    url: string,
    action: string,
    engine: string,
    ref: string)

  datatype Filter = Filter(
    source: string,
    requestId: string,
    sessionId: string,
    agentId: string,
    instanceId: string,
    profileId: string,
    profileName: string,
    tabId: string,
    action: string,
    engine: string,
    pathPrefix: string,
    since: int,
    until: int,
    limit: int)

  predicate Admits(wanted: string, actual: string) {
    wanted == "" || actual == wanted
  }

  // Filter.matches
  predicate MatchesFilter(f: Filter, e: Event) {
    && Admits(f.source, e.source)
    && Admits(f.requestId, e.requestId)
    && Admits(f.sessionId, e.sessionId)
    && Admits(f.agentId, e.agentId)
    && Admits(f.instanceId, e.instanceId)
    && Admits(f.profileId, e.profileId)
    && Admits(f.profileName, e.profileName)
    && Admits(f.tabId, e.tabId)
    && Admits(f.action, e.action)
    && Admits(f.engine, e.engine)
    && (f.pathPrefix == "" || HasPrefix(e.path, f.pathPrefix))
    && (f.since == 0 || e.timestamp >= f.since)
    && (f.until == 0 || e.timestamp <= f.until)
  }

  function ClampQueryLimit(limit: int): (n: int)
    ensures 1 <= n <= MAX_QUERY_LIMIT
  {
    if limit <= 0 then DEFAULT_QUERY_LIMIT
    else if limit > MAX_QUERY_LIMIT then MAX_QUERY_LIMIT
    else limit
  }

  // ---------------------------------------------------------------- what the disk holds

  // A line of a log file: an encoded event, text that does not decode, or a line beyond the scanner's buffer.
  datatype Line = Logged(event: Event) | Garbled | TooLong

  datatype FileRead = Missing | CannotOpen | Contents(lines: seq<Line>, closeFails: bool)

  datatype QueryError = OpenFailed | ScanFailed | CloseFailed

  datatype QueryResult = Found(events: seq<Event>) | Failed(error: QueryError)

  // ---------------------------------------------------------------- the specification

  function FileError(f: FileRead): Option<QueryError> {
    match f
    case Missing => None
    case CannotOpen => Some(OpenFailed)
    case Contents(lines, closeFails) =>
      if TooLong in lines then Some(ScanFailed) else if closeFails then Some(CloseFailed) else None
  }

  function FirstError(files: seq<FileRead>): Option<QueryError> {
    if files == [] then None
    else if FileError(files[0]).Some? then FileError(files[0])
    else FirstError(files[1..])
  }

  function Select(lines: seq<Line>, f: Filter): seq<Event> {
    if lines == [] then []
    else (if lines[0].Logged? && MatchesFilter(f, lines[0].event) then [lines[0].event] else []) + Select(lines[1..], f)
  }

  function FileLines(file: FileRead): seq<Line> {
    if file.Contents? then file.lines else []
  }

  function AllLines(files: seq<FileRead>): seq<Line> {
    if files == [] then [] else FileLines(files[0]) + AllLines(files[1..])
  }

  // The events without those already in `seen` or occurring earlier. Events are compared by their
  // encoding, hence by all their fields.
  function Dedup(es: seq<Event>, seen: set<Event>): seq<Event> {
    if es == [] then []
    else if es[0] in seen then Dedup(es[1..], seen)
    else [es[0]] + Dedup(es[1..], seen + {es[0]})
  }

  function QuerySpec(files: seq<FileRead>, f: Filter): QueryResult {
    match FirstError(files)
    case Some(e) => Failed(e)
    case None => Found(LastN(Dedup(Select(AllLines(files), f), {}), ClampQueryLimit(f.limit)))
  }

  // ---------------------------------------------------------------- facts about the specification

  predicate NoDuplicates(es: seq<Event>) {
    forall i, j :: 0 <= i < j < |es| ==> es[i] != es[j]
  }

  lemma {:induction false} DedupMembers(es: seq<Event>, seen: set<Event>)
    ensures forall e :: e in Dedup(es, seen) <==> e in es && e !in seen
    ensures NoDuplicates(Dedup(es, seen))
  {
    if es != [] {
      if es[0] in seen {
        DedupMembers(es[1..], seen);
      } else {
        DedupMembers(es[1..], seen + {es[0]});
      }
    }
  }

  lemma {:induction false} DedupAppend(es: seq<Event>, e: Event, seen: set<Event>)
    ensures Dedup(es + [e], seen) == Dedup(es, seen) + if e in es || e in seen then [] else [e]
  {
    if es == [] {
      assert ([] + [e])[1..] == [];
      assert Dedup([e][1..], seen + {e}) == [];
    } else {
      assert (es + [e])[1..] == es[1..] + [e];
      if es[0] in seen {
        DedupAppend(es[1..], e, seen);
      } else {
        DedupAppend(es[1..], e, seen + {es[0]});
      }
    }
  }

  lemma {:induction false} SelectAppend(lines: seq<Line>, line: Line, f: Filter)
    ensures Select(lines + [line], f)
         == Select(lines, f) + if line.Logged? && MatchesFilter(f, line.event) then [line.event] else []
  {
    if lines == [] {
      assert [line][1..] == [] && [] + [line] == [line];
    } else {
      assert (lines + [line])[1..] == lines[1..] + [line];
      SelectAppend(lines[1..], line, f);
    }
  }

  lemma {:induction false} AllLinesAppend(files: seq<FileRead>, g: FileRead)
    ensures AllLines(files + [g]) == AllLines(files) + FileLines(g)
  {
    if files == [] {
      assert [g][1..] == [] && [] + [g] == [g];
    } else {
      assert (files + [g])[0] == files[0] && (files + [g])[1..] == files[1..] + [g];
      AllLinesAppend(files[1..], g);
      var head, rest, last := FileLines(files[0]), AllLines(files[1..]), FileLines(g);
      assert AllLines(files) == head + rest && head + (rest + last) == (head + rest) + last;
    }
  }

  lemma {:induction false} FirstErrorAt(files: seq<FileRead>, n: nat)
    requires n <= |files|
    requires forall i :: 0 <= i < n ==> FileError(files[i]).None?
    ensures n < |files| && FileError(files[n]).Some? ==> FirstError(files) == FileError(files[n])
    ensures n == |files| ==> FirstError(files) == None
  {
    if n > 0 {
      FirstErrorAt(files[1..], n - 1);
    }
  }

  lemma {:induction false} SelectMembers(lines: seq<Line>, f: Filter)
    ensures forall e :: e in Select(lines, f) <==> Logged(e) in lines && MatchesFilter(f, e)
  {
    if lines != [] {
      SelectMembers(lines[1..], f);
    }
  }

  // ---------------------------------------------------------------- what a query promises

  // Every field that is set is met: the text fields exactly, the path by its prefix, and the time within
  // both bounds, which count as set if they are not Go's zero time.
  predicate Meets(f: Filter, e: Event) {
    && (f.source != "" ==> e.source == f.source)
    && (f.requestId != "" ==> e.requestId == f.requestId)
    && (f.sessionId != "" ==> e.sessionId == f.sessionId)
    && (f.agentId != "" ==> e.agentId == f.agentId)
    && (f.instanceId != "" ==> e.instanceId == f.instanceId)
    && (f.profileId != "" ==> e.profileId == f.profileId)
    && (f.profileName != "" ==> e.profileName == f.profileName)
    && (f.tabId != "" ==> e.tabId == f.tabId)
    && (f.action != "" ==> e.action == f.action)
    && (f.engine != "" ==> e.engine == f.engine)
    && (|f.pathPrefix| <= |e.path| && e.path[..|f.pathPrefix|] == f.pathPrefix)
    && (f.since != 0 ==> f.since <= e.timestamp)
    && (f.until != 0 ==> e.timestamp <= f.until)
  }

  lemma MatchingIsMeeting(f: Filter, e: Event)
    ensures MatchesFilter(f, e) <==> Meets(f, e)
  {
    assert f.pathPrefix <= e.path <==> |f.pathPrefix| <= |e.path| && e.path[..|f.pathPrefix|] == f.pathPrefix;
  }

  // The logged events a query asks for.
  ghost function AskedFor(lines: seq<Line>, f: Filter): set<Event> {
    set line | line in lines && line.Logged? && Meets(f, line.event) :: line.event
  }

  // Where an event is logged first.
  function FirstAt(lines: seq<Line>, e: Event): (i: nat)
    ensures i <= |lines| && Logged(e) !in lines[..i]
    ensures i < |lines| ==> lines[i] == Logged(e)
  {
    if lines == [] || lines[0] == Logged(e) then 0 else 1 + FirstAt(lines[1..], e)
  }

  lemma {:induction false} FirstAtIs(lines: seq<Line>, e: Event, i: nat)
    requires i < |lines| && lines[i] == Logged(e) && Logged(e) !in lines[..i]
    ensures FirstAt(lines, e) == i
  {
    if i > 0 {
      assert lines[0] in lines[..i] && lines[1..][..i - 1] == lines[..i][1..];
      FirstAtIs(lines[1..], e, i - 1);
    }
  }

  lemma FirstAtStays(lines: seq<Line>, line: Line, e: Event)
    ensures Logged(e) in lines ==> FirstAt(lines + [line], e) == FirstAt(lines, e) < |lines|
    ensures Logged(e) !in lines && line == Logged(e) ==> FirstAt(lines + [line], e) == |lines|
  {
    if Logged(e) in lines {
      var i := FirstAt(lines, e);
      assert lines[..|lines|] == lines;
      assert (lines + [line])[..i] == lines[..i];
      FirstAtIs(lines + [line], e, i);
    } else if line == Logged(e) {
      assert (lines + [line])[..|lines|] == lines;
      FirstAtIs(lines + [line], e, |lines|);
    }
  }

  // Every event at most once, in the order in which they were first logged.
  ghost predicate InLogOrder(lines: seq<Line>, es: seq<Event>) {
    && (forall i :: 0 <= i < |es| ==> Logged(es[i]) in lines)
    && (forall i, j :: 0 <= i < j < |es| ==> FirstAt(lines, es[i]) < FirstAt(lines, es[j]))
  }

  lemma {:induction false} DedupIsInLogOrder(lines: seq<Line>, f: Filter)
    ensures InLogOrder(lines, Dedup(Select(lines, f), {}))
    decreases |lines|
  {
    if lines != [] {
      var front, last := lines[..|lines| - 1], lines[|lines| - 1];
      assert lines == front + [last];
      DedupIsInLogOrder(front, f);
      SelectAppend(front, last, f);
      OneMoreInLogOrder(front, last, Dedup(Select(front, f), {}));
      if last.Logged? && MatchesFilter(f, last.event) {
        DedupAppend(Select(front, f), last.event, {});
        SelectMembers(front, f);
        assert last.event in Select(front, f) <==> last in front;
        assert Dedup(Select(front, f), {}) + [] == Dedup(Select(front, f), {});
      } else {
        assert Select(front, f) + [] == Select(front, f);
      }
    }
  }

  lemma OneMoreInLogOrder(lines: seq<Line>, line: Line, es: seq<Event>)
    requires InLogOrder(lines, es)
    ensures InLogOrder(lines + [line], es)
    ensures line.Logged? && line !in lines ==> InLogOrder(lines + [line], es + [line.event])
  {
    forall i | 0 <= i < |es| ensures FirstAt(lines + [line], es[i]) == FirstAt(lines, es[i]) < |lines| {
      FirstAtStays(lines, line, es[i]);
    }
    if line.Logged? {
      FirstAtStays(lines, line, line.event);
    }
  }

  lemma {:induction false} DistinctCount(es: seq<Event>)
    requires NoDuplicates(es)
    ensures |set e | e in es| == |es|
  {
    if es != [] {
      var front, last := es[..|es| - 1], es[|es| - 1];
      DistinctCount(front);
      assert (set e | e in es) == (set e | e in front) + {last};
      assert last !in front;
    }
  }

  // The answer to a query over readable files: of the logged events asked for, each once and in log order,
  // all if they fit the limit, and otherwise those first logged last.
  ghost predicate Answers(lines: seq<Line>, f: Filter, limit: nat, events: seq<Event>) {
    && (forall e :: e in events ==> e in AskedFor(lines, f))
    && |events| == (if |AskedFor(lines, f)| <= limit then |AskedFor(lines, f)| else limit)
    && InLogOrder(lines, events)
    && (forall e, kept :: e in AskedFor(lines, f) && e !in events && kept in events ==> FirstAt(lines, e) < FirstAt(lines, kept))
  }

  lemma AskedAreMatched(lines: seq<Line>, f: Filter)
    ensures forall e :: e in Dedup(Select(lines, f), {}) <==> e in AskedFor(lines, f)
    ensures |AskedFor(lines, f)| == |Dedup(Select(lines, f), {})|
  {
    var all := Dedup(Select(lines, f), {});
    SelectMembers(lines, f);
    DedupMembers(Select(lines, f), {});
    hide MatchesFilter, Meets, Select, Dedup;
    forall e ensures e in all <==> e in AskedFor(lines, f) {
      MatchingIsMeeting(f, e);
      assert Logged(e) in lines && Meets(f, e) ==> e in AskedFor(lines, f);
    }
    DistinctCount(all);
    assert AskedFor(lines, f) == set e | e in all;
  }

  lemma LastInLogOrder(lines: seq<Line>, all: seq<Event>, n: nat)
    requires InLogOrder(lines, all)
    ensures InLogOrder(lines, LastN(all, n))
    ensures forall e, kept :: e in all && e !in LastN(all, n) && kept in LastN(all, n) ==> FirstAt(lines, e) < FirstAt(lines, kept)
  {
    var last := LastN(all, n);
    forall e, kept | e in all && e !in last && kept in last ensures FirstAt(lines, e) < FirstAt(lines, kept) {
      var i :| 0 <= i < |all| && all[i] == e;
      var j :| 0 <= j < |last| && last[j] == kept;
      assert |all| > n && all[|all| - n + j] == kept;
      forall k | |all| - n <= k < |all| ensures all[k] in last {
        assert last[k - (|all| - n)] == all[k];
      }
    }
  }

  lemma WindowAnswers(lines: seq<Line>, f: Filter, limit: nat)
    ensures Answers(lines, f, limit, LastN(Dedup(Select(lines, f), {}), limit))
  {
    var all := Dedup(Select(lines, f), {});
    DedupIsInLogOrder(lines, f);
    AskedAreMatched(lines, f);
    LastInLogOrder(lines, all, limit);
    hide Select, Dedup, AskedFor, FirstAt, InLogOrder;
    assert forall e :: e in LastN(all, limit) ==> e in all;
  }

  // A file that cannot be read to its end, and how the query fails then.
  predicate FailsWith(file: FileRead, error: QueryError) {
    match error
    case OpenFailed => file.CannotOpen?
    case ScanFailed => file.Contents? && TooLong in file.lines
    case CloseFailed => file.Contents? && TooLong !in file.lines && file.closeFails
  }

  ghost predicate LoggedIn(files: seq<FileRead>, line: Line) {
    exists file :: file in files && file.Contents? && line in file.lines
  }

  lemma {:induction false} LinesAreLogged(files: seq<FileRead>, line: Line)
    ensures line in AllLines(files) <==> LoggedIn(files, line)
  {
    if files != [] {
      LinesAreLogged(files[1..], line);
      if LoggedIn(files, line) {
        var file :| file in files && file.Contents? && line in file.lines;
        assert file == files[0] || file in files[1..];
      }
      assert line in FileLines(files[0]) ==> files[0] in files && files[0].Contents?;
    }
  }

  // What Query promises: it fails as the first file does that cannot be read to its end, and otherwise
  // answers from the lines of all files, at most 1000 events or as many as asked for, by default 200.
  ghost predicate Promised(files: seq<FileRead>, f: Filter, result: QueryResult) {
    match result
    case Failed(error) =>
      exists i :: 0 <= i < |files| && FailsWith(files[i], error) && Readable(files[..i])
    case Found(events) =>
      && Readable(files)
      && (forall line :: line in AllLines(files) <==> LoggedIn(files, line))
      && Answers(AllLines(files), f, if f.limit <= 0 then 200 else if f.limit > 1000 then 1000 else f.limit, events)
  }

  ghost predicate Readable(files: seq<FileRead>) {
    forall file, error :: file in files ==> !FailsWith(file, error)
  }

  lemma {:induction false} ErrorIsTheFirst(files: seq<FileRead>)
    ensures FirstError(files).None? ==> Readable(files)
    ensures FirstError(files).Some? ==>
              exists i :: 0 <= i < |files| && FailsWith(files[i], FirstError(files).value) && Readable(files[..i])
  {
    if files != [] {
      ErrorIsTheFirst(files[1..]);
      assert forall error :: FailsWith(files[0], error) <==> FileError(files[0]) == Some(error);
      if FileError(files[0]).Some? {
        assert Readable(files[..0]);
      } else if FirstError(files[1..]).Some? {
        var i :| 0 <= i < |files[1..]| && FailsWith(files[1..][i], FirstError(files).value) && Readable(files[1..][..i]);
        assert files[..i + 1] == [files[0]] + files[1..][..i];
        assert FailsWith(files[i + 1], FirstError(files).value) && Readable(files[..i + 1]);
      } else {
        assert files == [files[0]] + files[1..];
      }
    }
  }

  lemma SpecKeepsPromise(files: seq<FileRead>, f: Filter)
    ensures Promised(files, f, QuerySpec(files, f))
  {
    ErrorIsTheFirst(files);
    forall line ensures line in AllLines(files) <==> LoggedIn(files, line) {
      LinesAreLogged(files, line);
    }
    WindowAnswers(AllLines(files), f, ClampQueryLimit(f.limit));
    hide AllLines, LoggedIn, FirstError, Select, Dedup, Answers, Readable, LastN;
  }

  // ---------------------------------------------------------------- the single pass

  ghost predicate Window(events: seq<Event>, seen: set<Event>, lines: seq<Line>, f: Filter, limit: nat) {
    && events == LastN(Dedup(Select(lines, f), {}), limit)
    && forall e :: e in seen <==> e in Select(lines, f)
  }

  lemma LastNMoves(all: seq<Event>, e: Event, limit: nat)
    requires limit >= 1
    ensures var last := LastN(all, limit);
            LastN(all + [e], limit) == if |last| < limit then last + [e] else last[1..] + [e]
    ensures LastN(all + [], limit) == LastN(all, limit)
  {
    assert all + [] == all;
  }

  lemma WindowMoves(events: seq<Event>, seen: set<Event>, lines: seq<Line>, line: Line, f: Filter, limit: nat)
    requires limit >= 1 && Window(events, seen, lines, f, limit)
    ensures if !line.Logged? || !MatchesFilter(f, line.event) || line.event in seen
            then Window(events, seen, lines + [line], f, limit)
            else Window(if |events| < limit then events + [line.event] else events[1..] + [line.event],
                        seen + {line.event}, lines + [line], f, limit)
  {
    hide Select, MatchesFilter, Dedup, LastN;
    SelectAppend(lines, line, f);
    var chosen := Select(lines, f);
    if line.Logged? && MatchesFilter(f, line.event) {
      DedupAppend(chosen, line.event, {});
      LastNMoves(Dedup(chosen, {}), line.event, limit);
    } else {
      assert Select(lines + [line], f) == chosen;
    }
  }

  method ScanFile(lines: seq<Line>, f: Filter, limit: nat, events0: seq<Event>, seen0: set<Event>, ghost before: seq<Line>)
      returns (events: seq<Event>, seen: set<Event>, ok: bool)
    requires limit >= 1 && Window(events0, seen0, before, f, limit)
    ensures ok <==> TooLong !in lines
    ensures ok ==> Window(events, seen, before + lines, f, limit)
  {
    events, seen := events0, seen0;
    assert before + [] == before;
    for i := 0 to |lines|
      invariant TooLong !in lines[..i]
      invariant Window(events, seen, before + lines[..i], f, limit)
    {
      var line := lines[i];
      assert lines[..i + 1] == lines[..i] + [line];
      assert before + lines[..i + 1] == (before + lines[..i]) + [line];
      WindowMoves(events, seen, before + lines[..i], line, f, limit);
      if line.TooLong? {
        return events, seen, false;
      }
      if line.Garbled? {
        continue;
      }
      var evt := line.event;
      if !MatchesFilter(f, evt) {
        continue;
      }
      if evt in seen {
        continue;
      }
      seen := seen + {evt};
      if |events| < limit {
        events := events + [evt];
        continue;
      }
      events := events[1..] + [evt];
    }
    assert lines[..|lines|] == lines;
    ok := true;
  }

  lemma NothingRead(f: Filter, limit: nat)
    ensures Window([], {}, AllLines([]), f, limit)
  {
  }

  method Query(files: seq<FileRead>, f: Filter) returns (result: QueryResult)
    ensures result == QuerySpec(files, f)
    ensures Promised(files, f, result)
  {
    hide Promised, Select, Dedup, FirstError, AllLines, LastN;
    SpecKeepsPromise(files, f);
    assert files[..0] == [];
    NothingRead(f, ClampQueryLimit(f.limit));
    var limit := ClampQueryLimit(f.limit);
    var events: seq<Event>, seen: set<Event> := [], {};
    for i := 0 to |files|
      invariant forall j :: 0 <= j < i ==> FileError(files[j]).None?
      invariant Window(events, seen, AllLines(files[..i]), f, limit)
    {
      var file := files[i];
      FirstErrorAt(files, i);
      assert files[..i + 1] == files[..i] + [file];
      AllLinesAppend(files[..i], file);
      match file
      case Missing =>
        assert AllLines(files[..i + 1]) == AllLines(files[..i]);
      case CannotOpen => return Failed(OpenFailed);
      case Contents(lines, closeFails) =>
        var ok;
        events, seen, ok := ScanFile(lines, f, limit, events, seen, AllLines(files[..i]));
        if !ok {
          return Failed(ScanFailed);
        }
        if closeFails {
          return Failed(CloseFailed);
        }
    }
    FirstErrorAt(files, |files|);
    assert files[..|files|] == files;
    assert events == LastN(Dedup(Select(AllLines(files), f), {}), limit);
    return Found(events);
  }
}

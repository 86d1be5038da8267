// Store.Record of internal/activity/activity.go, the writer of the files that Query and the tail reader
// read, and a reader behind it: what was recorded of a source is what the reads of that source return.

module ActivityRecording {
  import opened GoSlices
  import opened GoText
  import ActivityFiles
  import opened ActivityTail

  // EventSourceConfig: which sources besides the client are recorded.
  datatype Sources = Sources(dashboard: bool, server: bool, bridge: bool, orchestrator: bool, scheduler: bool, mcp: bool, other: bool)

  function OwnName(e: Event): string {
    ActivityFiles.NormalizeSourceName(e.source)
  }

  // shouldRecordSource
  predicate Enabled(cfg: Sources, own: string) {
    if own == "client" then true
    else if own == "dashboard" then cfg.dashboard
    else if own == "server" then cfg.server
    else if own == "bridge" then cfg.bridge
    else if own == "orchestrator" then cfg.orchestrator
    else if own == "scheduler" then cfg.scheduler
    else if own == "mcp" then cfg.mcp
    else cfg.other
  }

  // The client is always recorded, the other known sources as configured one by one, the rest together.
  lemma EnabledMeaning(cfg: Sources, own: string)
    ensures Enabled(cfg, "client")
    ensures Enabled(cfg, "dashboard") == cfg.dashboard && Enabled(cfg, "server") == cfg.server && Enabled(cfg, "bridge") == cfg.bridge
    ensures Enabled(cfg, "orchestrator") == cfg.orchestrator && Enabled(cfg, "scheduler") == cfg.scheduler && Enabled(cfg, "mcp") == cfg.mcp
    ensures own !in {"client", "dashboard", "server", "bridge", "orchestrator", "scheduler", "mcp"} ==> Enabled(cfg, own) == cfg.other
  {
  }

  // shouldWritePrimaryLog
  predicate InPrimaryLog(own: string) {
    own == "" || own == "server" || own == "bridge"
  }

  // filePathFor and sourceFilePathFor: the names under which the writer appends.
  function PrimaryLog(d: ActivityFiles.Day): string {
    "events-" + ActivityFiles.DateText(d) + ".jsonl"
  }

  function OwnLog(own: string, d: ActivityFiles.Day): string {
    "events-" + own + "-" + ActivityFiles.DateText(d) + ".jsonl"
  }

  // The files of the store's directory by name.
  type Disk = map<string, seq<Byte>>

  // appendJSONL
  function Appended(disk: Disk, name: string, line: seq<Byte>): Disk {
    disk[name := (if name in disk then disk[name] else []) + line + [LF]]
  }

  datatype Pruning = Pruning(removed: set<string>, ok: bool)

  // One call of Record: the event as it is written, the day of its timestamp, what pruning did if it was
  // due, and whether the two appends succeed.
  datatype Call = Call(event: Event, day: ActivityFiles.Day, pruning: Option<Pruning>, primaryOk: bool, ownOk: bool)

  // Whether the call gets as far as the appends: a time with another than a four-digit year has no encoding.
  predicate Reaches(cfg: Sources, k: Call) {
    Enabled(cfg, OwnName(k.event)) && (k.pruning.Some? ==> k.pruning.value.ok) && 0 <= k.day.year <= 9999
  }

  function Recorded(c: Codec, cfg: Sources, disk: Disk, k: Call): (Disk, bool) {
    var own, line := OwnName(k.event), c.encode(k.event);
    if !Enabled(cfg, own) then (disk, true)
    else
      var swept := if k.pruning.Some? then disk - k.pruning.value.removed else disk;
      if !Reaches(cfg, k) || (InPrimaryLog(own) && !k.primaryOk) then (swept, false)
      else
        var first := if InPrimaryLog(own) then Appended(swept, PrimaryLog(k.day), line) else swept;
        if own == "" then (first, true)
        else if !k.ownOk then (first, false)
        else (Appended(first, OwnLog(own, k.day), line), true)
  }

  class Recorder {
    const cfg: Sources
    const retentionDays: int
    var disk: Disk

    constructor (sources: Sources, days: int, files: Disk)
      ensures cfg == sources && retentionDays == days && disk == files
    {
      cfg, retentionDays, disk := sources, days, files;
    }

    // Pruning is due at most once an hour and on a new day; `entries` is the directory then.
    method Record(c: Codec, e: Event, day: ActivityFiles.Day, due: bool, entries: seq<ActivityFiles.FileEntry>, undeletable: set<string>,
                  primaryOk: bool, ownOk: bool) returns (ok: bool, pruning: Option<Pruning>)
      modifies this
      ensures (disk, ok) == Recorded(c, cfg, old(disk), Call(e, day, pruning, primaryOk, ownOk))
      ensures pruning.Some? ==> due
      ensures pruning.Some? && pruning.value.removed != {} ==> retentionDays > 0
      ensures pruning.Some? && retentionDays > 0 ==>
                pruning.value.removed <= ActivityFiles.ExpiredNames(entries, ActivityFiles.KeepFrom(day, retentionDays))
    {
      pruning := None;
      var own := ActivityFiles.NormalizeSource(e.source);
      if !Enabled(cfg, own) {
        return true, None;
      }
      if due {
        var removed, swept := ActivityFiles.PruneExpired(entries, day, retentionDays, undeletable);
        disk := disk - removed;
        pruning := Some(Pruning(removed, swept));
        if !swept {
          return false, pruning;
        }
      }
      if day.year < 0 || day.year > 9999 {
        return false, pruning;
      }
      var line := c.encode(e);
      if InPrimaryLog(own) {
        if !primaryOk {
          return false, pruning;
        }
        disk := Appended(disk, PrimaryLog(day), line);
      }
      if own != "" {
        if !ownOk {
          return false, pruning;
        }
        disk := Appended(disk, OwnLog(own, day), line);
      }
      return true, pruning;
    }
  }

  // ---------------------------------------------------------------- the names of the files

  // A reader's file: its source's log of the day, never a primary one.
  lemma PathIsSourceLog(source: string, d: ActivityFiles.Day)
    ensures var own := ActivityFiles.NormalizeSourceName(source);
            && (own == "" ==> PathFor(source, d) == "")
            && (own != "" ==> PathFor(source, d) == OwnLog(own, d))
            && (own != "" ==> ActivityFiles.IsSourceLogFile(PathFor(source, d), own))
            && (own != "" && 0 <= d.year <= 9999 ==>
                  && ActivityFiles.ActivityLogDay(PathFor(source, d)) == Some(ActivityFiles.DateText(d))
                  && forall e: ActivityFiles.Day :: 0 <= e.year <= 9999 ==> PathFor(source, d) != PrimaryLog(e))
  {
    var own := ActivityFiles.NormalizeSourceName(source);
    if own != "" {
      ActivityFiles.NameParts(own, ActivityFiles.DateText(d));
      if 0 <= d.year <= 9999 {
        ActivityFiles.LogDayRoundTrip(own, d);
        forall e: ActivityFiles.Day | 0 <= e.year <= 9999 ensures PathFor(source, d) != PrimaryLog(e) {
          PrimaryNameDiffers(own, d, e);
        }
      }
    }
  }

  lemma PrimaryNameDiffers(own: string, d: ActivityFiles.Day, e: ActivityFiles.Day)
    requires own != "" && 0 <= d.year <= 9999 && 0 <= e.year <= 9999
    ensures OwnLog(own, d) != PrimaryLog(e)
  {
    ActivityFiles.DayTakesTenCharacters(d);
    ActivityFiles.DayTakesTenCharacters(e);
    hide ActivityFiles.DateText;
    assert |OwnLog(own, d)| > |PrimaryLog(e)|;
  }

  lemma SameDate(d: ActivityFiles.Day, e: ActivityFiles.Day)
    requires 0 <= d.year <= 9999 && 0 <= e.year <= 9999 && ActivityFiles.DateText(d) == ActivityFiles.DateText(e)
    ensures d == e
  {
    ActivityFiles.TextOrderIsCalendarOrder(d, e);
    ActivityFiles.TextOrderIsCalendarOrder(e, d);
    ActivityFiles.LessIsStrict(ActivityFiles.DateText(d));
    ActivityFiles.CalendarOrder(d, e);
    ActivityFiles.CalendarOrder(e, d);
  }

  lemma SameOwnName(own: string, d: ActivityFiles.Day, own': string, e: ActivityFiles.Day)
    requires 0 <= d.year <= 9999 && 0 <= e.year <= 9999
    requires OwnLog(own, d) == OwnLog(own', e)
    ensures own == own' && d == e
  {
    ActivityFiles.DayTakesTenCharacters(d);
    ActivityFiles.DayTakesTenCharacters(e);
    SplitName(own, ActivityFiles.DateText(d), own', ActivityFiles.DateText(e));
    SameDate(d, e);
  }

  lemma SplitName(a: string, x: string, b: string, y: string)
    requires |x| == |y| && "events-" + a + "-" + x + ".jsonl" == "events-" + b + "-" + y + ".jsonl"
    ensures a == b && x == y
  {
    var s, t := "events-" + a + "-" + x + ".jsonl", "events-" + b + "-" + y + ".jsonl";
    assert |a| == |b|;
    assert s[7..7 + |a|] == a && t[7..7 + |b|] == b;
    assert s[8 + |a|..8 + |a| + |x|] == x && t[8 + |b|..8 + |b| + |y|] == y;
  }

  // ---------------------------------------------------------------- recording and reading

  datatype Step = Record(k: Call) | Read(limit: int, readAhead: nat)

  // The disk, the store's cursor, and what the reads have returned together.
  datatype State = State(disk: Disk, cursor: Cursor, delivered: seq<Event>)

  const EMPTY := State(map[], Cursor("", 0), [])

  // A read as Store.Read is proved to do it.
  function ReadOf(c: Codec, s: State, reader: string, today: ActivityFiles.Day, limit: int, readAhead: nat): (TailResult, Cursor) {
    ReadSpec(c, s.cursor, map name | name in s.disk :: Readable(s.disk[name]), PathFor(reader, today),
             ActivityFiles.NormalizeSourceName(reader), limit, readAhead)
  }

  function Take(c: Codec, cfg: Sources, s: State, reader: string, today: ActivityFiles.Day, step: Step): State {
    match step
    case Record(k) => s.(disk := Recorded(c, cfg, s.disk, k).0)
    case Read(limit, readAhead) =>
      var (result, cursor) := ReadOf(c, s, reader, today, limit, readAhead);
      State(s.disk, cursor, s.delivered + if result.Events? then result.events else [])
  }

  function After(c: Codec, cfg: Sources, reader: string, today: ActivityFiles.Day, steps: seq<Step>): State
    decreases |steps|
  {
    if steps == [] then EMPTY
    else Take(c, cfg, After(c, cfg, reader, today, steps[..|steps| - 1]), reader, today, steps[|steps| - 1])
  }

  // The caller sees that the read was not cut short: it returned fewer events than it may.
  predicate Uncut(c: Codec, s: State, reader: string, today: ActivityFiles.Day, step: Step) {
    step.Read? ==>
      var result := ReadOf(c, s, reader, today, step.limit, step.readAhead).0;
      result.Events? && |result.events| < if step.limit <= 0 then 200 else step.limit
  }

  // Pruning removes expired files only, and today's is not among them: no event is dated so late that the
  // days to keep begin after today.
  ghost predicate KeepsToday(k: Call, retentionDays: nat, today: ActivityFiles.Day)
    requires retentionDays > 0
  {
    && ActivityFiles.DayNumber(k.day) - (retentionDays - 1) <= ActivityFiles.DayNumber(today)
    && (k.pruning.Some? ==> forall name :: name in k.pruning.value.removed ==>
          exists modified :: ActivityFiles.Expired(ActivityFiles.FileEntry(name, false, modified), ActivityFiles.KeepFrom(k.day, retentionDays)))
  }

  ghost predicate Ordinary(c: Codec, cfg: Sources, reader: string, today: ActivityFiles.Day, retentionDays: nat, steps: seq<Step>)
    requires retentionDays > 0
    decreases |steps|
  {
    steps == [] ||
    var front, last := steps[..|steps| - 1], steps[|steps| - 1];
    && Ordinary(c, cfg, reader, today, retentionDays, front)
    && Uncut(c, After(c, cfg, reader, today, front), reader, today, last)
    && (last.Record? ==> KeepsToday(last.k, retentionDays, today) && |c.encode(last.k.event)| < MAX_LINE)
  }

  // The call appends its event to its source's own log.
  predicate Lands(cfg: Sources, k: Call) {
    Reaches(cfg, k) && (InPrimaryLog(OwnName(k.event)) ==> k.primaryOk) && k.ownOk
  }

  // The events recorded of a source on a day.
  function RecordedOf(cfg: Sources, source: string, today: ActivityFiles.Day, steps: seq<Step>): seq<Event>
    decreases |steps|
  {
    if steps == [] then []
    else
      var front, last := steps[..|steps| - 1], steps[|steps| - 1];
      RecordedOf(cfg, source, today, front)
        + if last.Record? && last.k.event.source == source && last.k.day == today && Lands(cfg, last.k) then [last.k.event] else []
  }

  // The events in a source's log: also those whose source is written differently.
  function Logged(cfg: Sources, own: string, today: ActivityFiles.Day, steps: seq<Step>): seq<Event>
    decreases |steps|
  {
    if steps == [] then []
    else
      var front, last := steps[..|steps| - 1], steps[|steps| - 1];
      Logged(cfg, own, today, front)
        + if last.Record? && OwnName(last.k.event) == own && last.k.day == today && Lands(cfg, last.k) then [last.k.event] else []
  }

  lemma {:induction false} WantedIsRecorded(cfg: Sources, own: string, today: ActivityFiles.Day, steps: seq<Step>)
    requires ActivityFiles.NormalizeSourceName(own) == own && own != ""
    ensures Wanted(Logged(cfg, own, today, steps), own) == RecordedOf(cfg, own, today, steps)
    decreases |steps|
  {
    if steps != [] {
      var front, last := steps[..|steps| - 1], steps[|steps| - 1];
      WantedIsRecorded(cfg, own, today, front);
      var before := Logged(cfg, own, today, front);
      assert before + [] == before && RecordedOf(cfg, own, today, front) + [] == RecordedOf(cfg, own, today, front);
      if last.Record? {
        WantedAppend(before, [last.k.event], own);
        WantedFirst([last.k.event], own);
        assert OwnName(last.k.event) == own && last.k.event.source != own ==> Wanted([last.k.event], own) == [];
        assert last.k.event.source == own ==> OwnName(last.k.event) == own && Wanted([last.k.event], own) == [last.k.event];
      }
    }
  }

  // ---------------------------------------------------------------- what a record does to one log

  lemma TodayStays(k: Call, retentionDays: nat, own: string, today: ActivityFiles.Day)
    requires retentionDays > 0 && own != "" && 0 <= today.year <= 9999 && KeepsToday(k, retentionDays, today)
    ensures k.pruning.Some? ==> OwnLog(own, today) !in k.pruning.value.removed
  {
    var name := ActivityFiles.FileName(own, today);
    assert name == OwnLog(own, today);
    forall modified ensures !ActivityFiles.Expired(ActivityFiles.FileEntry(name, false, modified), ActivityFiles.KeepFrom(k.day, retentionDays)) {
      ActivityFiles.ExpiredExactly(own, today, modified, k.day, retentionDays);
    }
  }

  // What a file holds; nothing if it does not exist.
  function Held(disk: Disk, name: string): seq<Byte> {
    if name in disk then disk[name] else []
  }

  lemma RecordAppends(c: Codec, cfg: Sources, disk: Disk, k: Call, retentionDays: nat, own: string, today: ActivityFiles.Day)
    requires retentionDays > 0 && own != "" && 0 <= today.year <= 9999 && KeepsToday(k, retentionDays, today)
    ensures var path := OwnLog(own, today);
            Held(Recorded(c, cfg, disk, k).0, path)
            == Held(disk, path) + if OwnName(k.event) == own && k.day == today && Lands(cfg, k) then c.encode(k.event) + [LF] else []
  {
    hide ActivityFiles.DateText, OwnName, ActivityFiles.DayNumber, OwnLog, PrimaryLog, KeepsToday, Enabled, InPrimaryLog;
    var path := OwnLog(own, today);
    TodayStays(k, retentionDays, own, today);
    if 0 <= k.day.year <= 9999 {
      PrimaryNameDiffers(own, today, k.day);
      if OwnName(k.event) != own || k.day != today {
        OwnNamesDiffer(OwnName(k.event), k.day, own, today);
      }
    }
    assert Held(disk, path) + [] == Held(disk, path);
  }

  lemma OwnNamesDiffer(own: string, d: ActivityFiles.Day, own': string, e: ActivityFiles.Day)
    requires 0 <= d.year <= 9999 && 0 <= e.year <= 9999 && (own != own' || d != e)
    ensures OwnLog(own, d) != OwnLog(own', e)
  {
    if OwnLog(own, d) == OwnLog(own', e) {
      SameOwnName(own, d, own', e);
    }
  }

  // ---------------------------------------------------------------- what was recorded is what is read

  // The log on disk is this one, and the reads have delivered its first `read` events.
  ghost predicate Follows(c: Codec, s: State, own: string, today: ActivityFiles.Day, log: seq<Event>, read: nat) {
    && Held(s.disk, OwnLog(own, today)) == Encoded(c, log)
    && Delivered(c, TailState(log, s.cursor, s.delivered), OwnLog(own, today), own, read)
  }

  lemma RecordFollows(c: Codec, cfg: Sources, s: State, k: Call, retentionDays: nat, own: string, today: ActivityFiles.Day, log: seq<Event>, read: nat)
    requires retentionDays > 0 && own != "" && 0 <= today.year <= 9999 && KeepsToday(k, retentionDays, today)
    requires Follows(c, s, own, today, log, read)
    ensures Follows(c, s.(disk := Recorded(c, cfg, s.disk, k).0), own, today,
                    log + if OwnName(k.event) == own && k.day == today && Lands(cfg, k) then [k.event] else [], read)
  {
    RecordAppends(c, cfg, s.disk, k, retentionDays, own, today);
    hide Recorded, Held, OwnLog, OwnName, Lands, KeepsToday;
    if OwnName(k.event) == own && k.day == today && Lands(cfg, k) {
      EncodedAppend(c, log, [k.event]);
      EncodedOne(c, k.event);
      assert (log + [k.event])[..read] == log[..read];
    } else {
      assert log + [] == log;
      assert Encoded(c, log) + [] == Encoded(c, log);
    }
  }

  lemma EncodedOne(c: Codec, e: Event)
    ensures Encoded(c, [e]) == c.encode(e) + [LF]
  {
    assert [e][1..] == [] && Encoded(c, []) == [];
    assert c.encode(e) + [LF] + [] == c.encode(e) + [LF];
  }

  // A read of the disk is a read of the one file.
  lemma ReadOfDisk(c: Codec, s: State, reader: string, today: ActivityFiles.Day, log: seq<Event>, limit: int, readAhead: nat)
    requires var path := PathFor(reader, today); path != "" && path in s.disk && s.disk[path] == Encoded(c, log)
    ensures ReadOf(c, s, reader, today, limit, readAhead)
         == StepRead(c, TailState(log, s.cursor, s.delivered), PathFor(reader, today), ActivityFiles.NormalizeSourceName(reader), ReadTail(limit, readAhead))
  {
    hide Encoded, ScanData, PathFor, ActivityFiles.NormalizeSourceName, Position;
  }

  lemma ReadOfNothing(c: Codec, s: State, reader: string, today: ActivityFiles.Day, limit: int, readAhead: nat)
    requires PathFor(reader, today) !in s.disk
    ensures ReadOf(c, s, reader, today, limit, readAhead) == (Events([]), s.cursor)
  {
    hide Encoded, ScanData, PathFor, ActivityFiles.NormalizeSourceName, Position;
  }

  lemma UncutReadsThrough(c: Codec, t: TailState, path: string, source: string, limit: int, readAhead: nat)
    requires path != ""
    requires var result := StepRead(c, t, path, source, ReadTail(limit, readAhead)).0;
             result.Events? && |result.events| < EffectiveLimit(limit)
    ensures ReadsThrough(c, t, path, source, ReadTail(limit, readAhead))
  {
    hide Encoded, ScanData, Position;
  }

  lemma NothingHeld(c: Codec, log: seq<Event>)
    ensures Encoded(c, log) == [] <==> log == []
  {
  }

  lemma ReadFollows(c: Codec, cfg: Sources, s: State, reader: string, today: ActivityFiles.Day, log: seq<Event>, read: nat, limit: int, readAhead: nat)
    requires Faithful(c) && Scannable(c, log)
    requires var own := ActivityFiles.NormalizeSourceName(reader);
             own != "" && Follows(c, s, own, today, log, read) && Uncut(c, s, reader, today, Read(limit, readAhead))
    ensures Follows(c, Take(c, cfg, s, reader, today, Read(limit, readAhead)), ActivityFiles.NormalizeSourceName(reader), today, log, |log|)
  {
    var own, path := ActivityFiles.NormalizeSourceName(reader), PathFor(reader, today);
    PathIsSourceLog(reader, today);
    assert path == OwnLog(own, today) && path != "";
    var t := TailState(log, s.cursor, s.delivered);
    hide OwnLog, PathFor, ReadOf, Encoded, Faithful, Scannable, StepRead, Delivered, ActivityFiles.NormalizeSourceName;
    if path in s.disk {
      ReadOfDisk(c, s, reader, today, log, limit, readAhead);
      UncutReadsThrough(c, t, path, own, limit, readAhead);
      ReadDelivers(c, t, path, own, read, limit, readAhead);
    } else {
      ReadOfNothing(c, s, reader, today, limit, readAhead);
      NothingHeld(c, log);
      ReadLessIsAll(c, t, path, own, read);
      assert s.delivered + [] == s.delivered;
    }
  }

  lemma ReadLessIsAll(c: Codec, t: TailState, path: string, own: string, read: nat)
    requires Delivered(c, t, path, own, read) && t.log == []
    ensures Delivered(c, t, path, own, |t.log|)
  {
  }

  // How much had been recorded by the last read.
  function LastRead(steps: seq<Step>): seq<Step>
    decreases |steps|
  {
    if steps == [] then [] else if steps[|steps| - 1].Read? then steps else LastRead(steps[..|steps| - 1])
  }

  lemma {:induction false} ShortLines(c: Codec, cfg: Sources, reader: string, today: ActivityFiles.Day, retentionDays: nat, steps: seq<Step>, own: string)
    requires retentionDays > 0 && Ordinary(c, cfg, reader, today, retentionDays, steps)
    ensures Scannable(c, Logged(cfg, own, today, steps))
    decreases |steps|
  {
    if steps != [] {
      ShortLines(c, cfg, reader, today, retentionDays, steps[..|steps| - 1], own);
    }
  }

  lemma {:induction false} StoreFollows(c: Codec, cfg: Sources, reader: string, today: ActivityFiles.Day, retentionDays: nat, steps: seq<Step>)
    requires Faithful(c) && retentionDays > 0 && 0 <= today.year <= 9999
    requires ActivityFiles.NormalizeSourceName(reader) != ""
    requires Ordinary(c, cfg, reader, today, retentionDays, steps)
    ensures var own := ActivityFiles.NormalizeSourceName(reader);
            Follows(c, After(c, cfg, reader, today, steps), own, today, Logged(cfg, own, today, steps), |Logged(cfg, own, today, LastRead(steps))|)
    decreases |steps|
  {
    var own := ActivityFiles.NormalizeSourceName(reader);
    hide Follows, Recorded, Uncut, OwnName, Lands, KeepsToday, ActivityFiles.NormalizeSourceName, Faithful, Scannable;
    if steps == [] {
      EmptyFollows(c, own, today);
    } else {
      var front, last := steps[..|steps| - 1], steps[|steps| - 1];
      StoreFollows(c, cfg, reader, today, retentionDays, front);
      var s, log, read := After(c, cfg, reader, today, front), Logged(cfg, own, today, front), |Logged(cfg, own, today, LastRead(front))|;
      match last
      case Record(k) => RecordFollows(c, cfg, s, k, retentionDays, own, today, log, read);
      case Read(limit, readAhead) =>
        ShortLines(c, cfg, reader, today, retentionDays, front, own);
        ReadFollows(c, cfg, s, reader, today, log, read, limit, readAhead);
        assert log + [] == log;
    }
  }

  lemma EmptyFollows(c: Codec, own: string, today: ActivityFiles.Day)
    ensures Follows(c, EMPTY, own, today, [], 0)
  {
  }

  // Over any records of any sources and any uncut reads of one source on one day, the reads together return
  // exactly the events recorded of that source on that day by the last read: each once, in order.
  lemma RecordedIsRead(c: Codec, cfg: Sources, reader: string, today: ActivityFiles.Day, retentionDays: nat, steps: seq<Step>)
    requires Faithful(c) && retentionDays > 0 && 0 <= today.year <= 9999
    requires ActivityFiles.NormalizeSourceName(reader) != ""
    requires Ordinary(c, cfg, reader, today, retentionDays, steps)
    ensures After(c, cfg, reader, today, steps).delivered
         == RecordedOf(cfg, ActivityFiles.NormalizeSourceName(reader), today, LastRead(steps))
  {
    hide *;
    var own := ActivityFiles.NormalizeSourceName(reader);
    ActivityFiles.NormalizationIsIdempotent(reader);
    StoreFollows(c, cfg, reader, today, retentionDays, steps);
    LastReadIsPrefix(steps);
    LoggedSoFar(cfg, own, today, steps, |LastRead(steps)|);
    WantedIsRecorded(cfg, own, today, LastRead(steps));
    var log, seen := Logged(cfg, own, today, steps), Logged(cfg, own, today, LastRead(steps));
    FollowsDelivers(c, After(c, cfg, reader, today, steps), own, today, log, |seen|);
    assert log[..|seen|] == seen;
  }

  lemma FollowsDelivers(c: Codec, s: State, own: string, today: ActivityFiles.Day, log: seq<Event>, read: nat)
    requires Follows(c, s, own, today, log, read)
    ensures read <= |log| && s.delivered == Wanted(log[..read], own)
  {
  }

  lemma {:induction false} LastReadIsPrefix(steps: seq<Step>)
    ensures |LastRead(steps)| <= |steps| && LastRead(steps) == steps[..|LastRead(steps)|]
    decreases |steps|
  {
    if steps != [] && steps[|steps| - 1].Record? {
      LastReadIsPrefix(steps[..|steps| - 1]);
      assert steps[..|steps| - 1][..|LastRead(steps)|] == steps[..|LastRead(steps)|];
    }
  }

  lemma {:induction false} LoggedSoFar(cfg: Sources, own: string, today: ActivityFiles.Day, steps: seq<Step>, n: nat)
    requires n <= |steps|
    ensures Logged(cfg, own, today, steps[..n]) <= Logged(cfg, own, today, steps)
    decreases |steps|
  {
    if n < |steps| {
      var front := steps[..|steps| - 1];
      LoggedSoFar(cfg, own, today, front, n);
      assert front[..n] == steps[..n];
    } else {
      assert steps[..n] == steps;
    }
  }

  // ---------------------------------------------------------------- the primary log

  function DiskAfter(c: Codec, cfg: Sources, calls: seq<Call>): Disk
    decreases |calls|
  {
    if calls == [] then map[] else Recorded(c, cfg, DiskAfter(c, cfg, calls[..|calls| - 1]), calls[|calls| - 1]).0
  }

  // The events recorded on a day that belong to the primary log: those without a source, the server's and the
  // bridge's.
  function PrimaryEvents(cfg: Sources, today: ActivityFiles.Day, calls: seq<Call>): seq<Event>
    decreases |calls|
  {
    if calls == [] then []
    else
      var front, k := calls[..|calls| - 1], calls[|calls| - 1];
      PrimaryEvents(cfg, today, front)
        + if OwnName(k.event) in {"", "server", "bridge"} && k.day == today && Reaches(cfg, k) && k.primaryOk then [k.event] else []
  }

  function OwnEvents(cfg: Sources, own: string, today: ActivityFiles.Day, calls: seq<Call>): seq<Event>
    decreases |calls|
  {
    if calls == [] then []
    else
      var front, k := calls[..|calls| - 1], calls[|calls| - 1];
      OwnEvents(cfg, own, today, front) + if OwnName(k.event) == own && k.day == today && Lands(cfg, k) then [k.event] else []
  }

  ghost predicate AllKeep(calls: seq<Call>, retentionDays: nat, today: ActivityFiles.Day)
    requires retentionDays > 0
  {
    forall i :: 0 <= i < |calls| ==> KeepsToday(calls[i], retentionDays, today)
  }

  lemma PrimaryStays(k: Call, retentionDays: nat, today: ActivityFiles.Day)
    requires retentionDays > 0 && 0 <= today.year <= 9999 && KeepsToday(k, retentionDays, today)
    ensures k.pruning.Some? ==> PrimaryLog(today) !in k.pruning.value.removed
  {
    var name := ActivityFiles.FileName("", today);
    assert name == PrimaryLog(today);
    forall modified ensures !ActivityFiles.Expired(ActivityFiles.FileEntry(name, false, modified), ActivityFiles.KeepFrom(k.day, retentionDays)) {
      ActivityFiles.ExpiredExactly("", today, modified, k.day, retentionDays);
    }
  }

  lemma PrimaryLogsDiffer(d: ActivityFiles.Day, e: ActivityFiles.Day)
    requires 0 <= d.year <= 9999 && 0 <= e.year <= 9999 && d != e
    ensures PrimaryLog(d) != PrimaryLog(e)
  {
    ActivityFiles.DayTakesTenCharacters(d);
    ActivityFiles.DayTakesTenCharacters(e);
    if ActivityFiles.DateText(d) == ActivityFiles.DateText(e) {
      SameDate(d, e);
    }
    hide ActivityFiles.DateText;
    assert PrimaryLog(d)[7..17] == ActivityFiles.DateText(d) && PrimaryLog(e)[7..17] == ActivityFiles.DateText(e);
  }

  lemma RecordAppendsToPrimary(c: Codec, cfg: Sources, disk: Disk, k: Call, retentionDays: nat, today: ActivityFiles.Day)
    requires retentionDays > 0 && 0 <= today.year <= 9999 && KeepsToday(k, retentionDays, today)
    ensures Held(Recorded(c, cfg, disk, k).0, PrimaryLog(today))
         == Held(disk, PrimaryLog(today))
            + if OwnName(k.event) in {"", "server", "bridge"} && k.day == today && Reaches(cfg, k) && k.primaryOk
              then c.encode(k.event) + [LF] else []
  {
    hide ActivityFiles.DateText, OwnName, ActivityFiles.DayNumber, OwnLog, PrimaryLog, KeepsToday, Enabled;
    PrimaryStays(k, retentionDays, today);
    if 0 <= k.day.year <= 9999 {
      if OwnName(k.event) != "" {
        PrimaryNameDiffers(OwnName(k.event), k.day, today);
      }
      if k.day != today {
        PrimaryLogsDiffer(k.day, today);
      }
    }
    assert Held(disk, PrimaryLog(today)) + [] == Held(disk, PrimaryLog(today));
  }

  // Over any records: the primary log of a day holds exactly the events recorded for it then, and a source's
  // own log exactly the source's, each in order; what the server's or the bridge's log holds is in the primary
  // log too.
  lemma {:induction false} LogsHoldTheirEvents(c: Codec, cfg: Sources, calls: seq<Call>, retentionDays: nat, own: string, today: ActivityFiles.Day)
    requires retentionDays > 0 && own != "" && 0 <= today.year <= 9999 && AllKeep(calls, retentionDays, today)
    ensures Held(DiskAfter(c, cfg, calls), PrimaryLog(today)) == Encoded(c, PrimaryEvents(cfg, today, calls))
    ensures Held(DiskAfter(c, cfg, calls), OwnLog(own, today)) == Encoded(c, OwnEvents(cfg, own, today, calls))
    ensures own in {"server", "bridge"} ==> forall e :: e in OwnEvents(cfg, own, today, calls) ==> e in PrimaryEvents(cfg, today, calls)
    decreases |calls|
  {
    hide Recorded, KeepsToday, OwnName, OwnLog, PrimaryLog, Encoded;
    if calls == [] {
      NothingHeld(c, []);
    } else {
      var front, k := calls[..|calls| - 1], calls[|calls| - 1];
      LogsHoldTheirEvents(c, cfg, front, retentionDays, own, today);
      var disk, primary, mine := DiskAfter(c, cfg, front), PrimaryEvents(cfg, today, front), OwnEvents(cfg, own, today, front);
      RecordAppendsToPrimary(c, cfg, disk, k, retentionDays, today);
      RecordAppends(c, cfg, disk, k, retentionDays, own, today);
      EncodedAppend(c, primary, [k.event]);
      EncodedAppend(c, mine, [k.event]);
      EncodedOne(c, k.event);
      assert primary + [] == primary && mine + [] == mine;
      assert Encoded(c, primary) + [] == Encoded(c, primary) && Encoded(c, mine) + [] == Encoded(c, mine);
    }
  }
}

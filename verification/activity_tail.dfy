// TailReader.Read of internal/activity/activity.go: reading only what was appended to a source's log
// since the last call, by remembering a byte offset in the store.

module ActivityTail {
  import opened GoSlices
  import opened GoText
  import ActivityFiles
  import ActivityQuery

  // Of an event the reader only looks at the source; everything else is the payload.
  datatype Event = Event(source: string, payload: string)

  const LF: Byte := 10
  const CR: Byte := 13
  const MAX_LINE := 1048576

  // The JSON encoding of events, of which only this much matters: it decodes to what was encoded, and
  // an encoded event is not empty, holds no newline and does not end in a carriage return.
  datatype Codec = Codec(encode: Event -> seq<Byte>, decode: seq<Byte> -> Option<Event>)

  ghost predicate Faithful(c: Codec) {
    forall e :: c.decode(c.encode(e)) == Some(e) && c.encode(e) != [] && LF !in c.encode(e)
             && c.encode(e)[|c.encode(e)| - 1] != CR
  }

  // ---------------------------------------------------------------- the line scanner

  function LineLength(data: seq<Byte>): (n: nat)
    ensures n <= |data|
    ensures forall i :: 0 <= i < n ==> data[i] != LF
    ensures n < |data| ==> data[n] == LF
  {
    if data == [] || data[0] == LF then 0 else 1 + LineLength(data[1..])
  }

  function Token(line: seq<Byte>): seq<Byte> {
    if line != [] && line[|line| - 1] == CR then line[..|line| - 1] else line
  }

  // A line without its newline, and how many bytes it takes up in the file.
  datatype RawLine = RawLine(text: seq<Byte>, size: nat)

  function SplitLines(data: seq<Byte>): seq<RawLine> {
    if data == [] then []
    else
      var n := LineLength(data);
      if n == |data| then [RawLine(data, n)] else [RawLine(data[..n], n + 1)] + SplitLines(data[n + 1..])
  }

  // The event of a line, if it decodes to one of the wanted source.
  function EventOf(c: Codec, line: RawLine, source: string): (es: seq<Event>)
    ensures |es| <= 1
  {
    match c.decode(Token(line.text))
    case None => []
    case Some(e) => if source != "" && e.source != source then [] else [e]
  }

  datatype Scan = TooLongLine | Scanned(events: seq<Event>, consumed: nat)

  function Ahead(first: seq<Event>, n: nat, rest: Scan): Scan {
    match rest
    case TooLongLine => TooLongLine
    case Scanned(es, k) => Scanned(first + es, n + k)
  }

  // Scanning until the lines end or `room` events were found.
  function ScanLines(c: Codec, lines: seq<RawLine>, source: string, room: nat): Scan
    decreases |lines|
  {
    if lines == [] || room == 0 then Scanned([], 0)
    else if |lines[0].text| >= MAX_LINE then TooLongLine
    else
      var first := EventOf(c, lines[0], source);
      Ahead(first, lines[0].size, ScanLines(c, lines[1..], source, room - |first|))
  }

  function ScanData(c: Codec, data: seq<Byte>, source: string, room: nat): Scan {
    ScanLines(c, SplitLines(data), source, room)
  }

  // ---------------------------------------------------------------- the reader

  datatype TailResult = Events(events: seq<Event>) | OpenError | ScanError

  // A file that exists: its bytes, or opening it fails.
  datatype TailFile = Readable(data: seq<Byte>) | Unopenable

  function EffectiveLimit(limit: int): nat {
    if limit <= 0 then ActivityQuery.DEFAULT_QUERY_LIMIT else limit
  }

  function From(data: seq<Byte>, offset: nat): seq<Byte> {
    if offset <= |data| then data[offset..] else []
  }

  // Where the file position ends up: everything pending if the scan got through it, otherwise anywhere
  // from the end of the last scanned line on, because the scanner reads ahead in chunks.
  function Position(offset: nat, pending: nat, consumed: nat, events: nat, limit: nat, readAhead: nat): nat {
    if events < limit || consumed + readAhead >= pending then offset + pending else offset + consumed + readAhead
  }

  // tailFile and tailOffset.
  datatype Cursor = Cursor(file: string, offset: nat)

  function StartOffset(cur: Cursor, path: string): nat {
    if path == cur.file then cur.offset else 0
  }

  function ReadSpec(c: Codec, cur: Cursor, files: map<string, TailFile>, path: string, source: string, limit: int,
                    readAhead: nat): (TailResult, Cursor) {
    if path == "" || path !in files then (Events([]), cur)
    else if files[path].Unopenable? then (OpenError, cur)
    else
      var offset := StartOffset(cur, path);
      var pending := From(files[path].data, offset);
      match ScanData(c, pending, source, EffectiveLimit(limit))
      case TooLongLine => (ScanError, cur)
      case Scanned(events, consumed) =>
        (Events(events),
         Cursor(path, Position(offset, |pending|, consumed, |events|, EffectiveLimit(limit), readAhead)))
  }

  // sourceFilePathFor, within the store's directory.
  function PathFor(source: string, d: ActivityFiles.Day): string {
    var name := ActivityFiles.NormalizeSourceName(source);
    if name == "" then "" else ActivityFiles.FileName(name, d)
  }

  class Store {
    var tailFile: string
    var tailOffset: nat

    constructor ()
      ensures tailFile == "" && tailOffset == 0
    {
      tailFile, tailOffset := "", 0;
    }

    // The file is today's log of the reader's source; events of that normalised source are wanted.
    method Read(c: Codec, files: map<string, TailFile>, readerSource: string, today: ActivityFiles.Day, limit: int, readAhead: nat)
        returns (result: TailResult)
      modifies this
      ensures (result, Cursor(tailFile, tailOffset))
           == ReadSpec(c, Cursor(old(tailFile), old(tailOffset)), files, PathFor(readerSource, today),
                       ActivityFiles.NormalizeSourceName(readerSource), limit, readAhead)
      ensures TailPromise(c, old(tailFile), old(tailOffset), files, PathFor(readerSource, today),
                          ActivityFiles.NormalizeSourceName(readerSource), if limit <= 0 then 200 else limit, result, tailFile, tailOffset)
    {
      SpecKeepsPromise(c, Cursor(tailFile, tailOffset), files, PathFor(readerSource, today),
                       ActivityFiles.NormalizeSourceName(readerSource), limit, readAhead);
      hide TailPromise, EventOf;
      var room := EffectiveLimit(limit);
      var source := ActivityFiles.NormalizeSource(readerSource);
      ActivityFiles.NormalizationIsIdempotent(readerSource);
      var path := PathFor(source, today);
      if path == "" || path !in files {
        return Events([]);
      }
      if files[path].Unopenable? {
        return OpenError;
      }
      var prevOffset := tailOffset;
      if path != tailFile {
        prevOffset := 0;
      }
      var pending := From(files[path].data, prevOffset);
      var scan := ScanLoop(c, SplitLines(pending), source, room);
      if scan.TooLongLine? {
        return ScanError;
      }
      tailFile := path;
      tailOffset := Position(prevOffset, |pending|, scan.consumed, |scan.events|, room, readAhead);
      return Events(scan.events);
    }

    // The loop over the scanner's lines.
    static method ScanLoop(c: Codec, lines: seq<RawLine>, source: string, room: nat) returns (scan: Scan)
      ensures scan == ScanLines(c, lines, source, room)
    {
      hide EventOf, ScanLines, Ahead;
      var events: seq<Event> := [];
      var consumed: nat, i: nat := 0, 0;
      ghost var total := ScanLines(c, lines, source, room);
      AheadOfNothing(total);
      assert lines[0..] == lines;
      while i < |lines| && |events| < room
        invariant 0 <= i <= |lines| && |events| <= room
        invariant total == Ahead(events, consumed, ScanLines(c, lines[i..], source, room - |events|))
      {
        ScanOneLine(c, lines, i, source, events, consumed, room);
        if |lines[i].text| >= MAX_LINE {
          return TooLongLine;
        }
        var first := EventOf(c, lines[i], source);
        events := events + first;
        consumed := consumed + lines[i].size;
        i := i + 1;
      }
      ScanIsOver(c, lines[i..], source, events, consumed, room);
      return Scanned(events, consumed);
    }
  }

  // Whatever a read finds: events of its source only, no more than asked for; where there is no file or it
  // fails, nothing, and the cursor stays; otherwise the cursor is then in this file.
  ghost predicate TailPromise(c: Codec, wasFile: string, wasOffset: nat, files: map<string, TailFile>, path: string, source: string,
                              limit: nat, result: TailResult, file: string, offset: nat)
  {
    && (path == "" || path !in files ==> result == Events([]))
    && (path != "" && path in files && files[path].Unopenable? ==> result == OpenError)
    && (path != "" && path in files && files[path].Readable? ==> result != OpenError)
    && (result == ScanError ==>
          && path in files && files[path].Readable?
          && exists line :: line in SplitLines(From(files[path].data, if path == wasFile then wasOffset else 0)) && |line.text| >= MAX_LINE)
    && (result.Events? ==> |result.events| <= limit && forall e :: e in result.events ==> e.source == source || source == "")
    && (file, offset) == (if result.Events? && path != "" && path in files then (path, offset) else (wasFile, wasOffset))
  }

  lemma {:induction false} ScanFacts(c: Codec, lines: seq<RawLine>, source: string, room: nat)
    ensures match ScanLines(c, lines, source, room)
            case TooLongLine => exists line :: line in lines && |line.text| >= MAX_LINE
            case Scanned(events, _) => |events| <= room && forall e :: e in events ==> e.source == source || source == ""
    decreases |lines|
  {
    if lines != [] && room > 0 {
      if |lines[0].text| >= MAX_LINE {
        assert lines[0] in lines;
      } else {
        var first := EventOf(c, lines[0], source);
        ScanFacts(c, lines[1..], source, room - |first|);
        if ScanLines(c, lines[1..], source, room - |first|).TooLongLine? {
          var line :| line in lines[1..] && |line.text| >= MAX_LINE;
          assert line in lines;
        }
      }
    }
  }

  lemma SpecKeepsPromise(c: Codec, cur: Cursor, files: map<string, TailFile>, path: string, source: string, limit: int, readAhead: nat)
    ensures var (result, cursor) := ReadSpec(c, cur, files, path, source, limit, readAhead);
            TailPromise(c, cur.file, cur.offset, files, path, source, if limit <= 0 then 200 else limit, result, cursor.file, cursor.offset)
  {
    if path in files && files[path].Readable? {
      ScanFacts(c, SplitLines(From(files[path].data, StartOffset(cur, path))), source, EffectiveLimit(limit));
    }
    hide ScanLines, SplitLines, Position;
  }

  lemma AheadOfNothing(scan: Scan)
    ensures Ahead([], 0, scan) == scan
  {
  }

  lemma AheadTwice(a: seq<Event>, n: nat, b: seq<Event>, m: nat, scan: Scan)
    ensures Ahead(a, n, Ahead(b, m, scan)) == Ahead(a + b, n + m, scan)
  {
  }

  lemma ScanOneLine(c: Codec, lines: seq<RawLine>, i: nat, source: string, events: seq<Event>, consumed: nat, room: nat)
    requires i < |lines| && |events| < room
    ensures Ahead(events, consumed, ScanLines(c, lines[i..], source, room - |events|))
         == if |lines[i].text| >= MAX_LINE then TooLongLine
            else
              var first := EventOf(c, lines[i], source);
              Ahead(events + first, consumed + lines[i].size, ScanLines(c, lines[i + 1..], source, room - |events + first|))
  {
    hide EventOf;
    assert lines[i..][0] == lines[i] && lines[i..][1..] == lines[i + 1..];
    var first := EventOf(c, lines[i], source);
    AheadTwice(events, consumed, first, lines[i].size, ScanLines(c, lines[i + 1..], source, room - |events| - |first|));
    assert room - |events + first| == room - |events| - |first|;
  }

  lemma ScanIsOver(c: Codec, lines: seq<RawLine>, source: string, events: seq<Event>, consumed: nat, room: nat)
    requires |events| <= room && (lines == [] || |events| == room)
    ensures Ahead(events, consumed, ScanLines(c, lines, source, room - |events|)) == Scanned(events, consumed)
  {
    assert events + [] == events;
  }

  // ---------------------------------------------------------------- the log as a list of events

  function Encoded(c: Codec, log: seq<Event>): seq<Byte> {
    if log == [] then [] else c.encode(log[0]) + [LF] + Encoded(c, log[1..])
  }

  function Wanted(log: seq<Event>, source: string): seq<Event> {
    if log == [] then []
    else (if source != "" && log[0].source != source then [] else [log[0]]) + Wanted(log[1..], source)
  }

  // No line is so long that the scanner gives up.
  ghost predicate Scannable(c: Codec, log: seq<Event>) {
    forall e :: e in log ==> |c.encode(e)| < MAX_LINE
  }

  lemma {:induction false} EncodedAppend(c: Codec, a: seq<Event>, b: seq<Event>)
    ensures Encoded(c, a + b) == Encoded(c, a) + Encoded(c, b)
  {
    if a == [] {
      assert a + b == b;
    } else {
      assert (a + b)[1..] == a[1..] + b;
      EncodedAppend(c, a[1..], b);
    }
  }

  lemma {:induction false} WantedAppend(a: seq<Event>, b: seq<Event>, source: string)
    ensures Wanted(a + b, source) == Wanted(a, source) + Wanted(b, source)
  {
    if a == [] {
      assert a + b == b;
    } else {
      assert (a + b)[0] == a[0] && (a + b)[1..] == a[1..] + b;
      WantedAppend(a[1..], b, source);
      var first := if source != "" && a[0].source != source then [] else [a[0]];
      assert Wanted(a, source) == first + Wanted(a[1..], source);
    }
  }

  lemma {:induction false} LineLengthIs(line: seq<Byte>, rest: seq<Byte>)
    requires LF !in line
    ensures LineLength(line + [LF] + rest) == |line|
  {
    var data := line + [LF] + rest;
    if line != [] {
      assert data[1..] == line[1..] + [LF] + rest;
      LineLengthIs(line[1..], rest);
    }
  }

  function LinesOf(c: Codec, log: seq<Event>): seq<RawLine> {
    if log == [] then [] else [RawLine(c.encode(log[0]), |c.encode(log[0])| + 1)] + LinesOf(c, log[1..])
  }

  lemma SplitOffLine(line: seq<Byte>, rest: seq<Byte>)
    requires LF !in line
    ensures SplitLines(line + [LF] + rest) == [RawLine(line, |line| + 1)] + SplitLines(rest)
  {
    var data := line + [LF] + rest;
    LineLengthIs(line, rest);
    assert data[..|line|] == line && data[|line| + 1..] == rest;
  }

  // The scanner sees an encoded log line by line as it was written.
  lemma {:induction false} SplitEncoded(c: Codec, log: seq<Event>)
    requires Faithful(c)
    ensures SplitLines(Encoded(c, log)) == LinesOf(c, log)
    decreases |log|
  {
    if log != [] {
      assert LF !in c.encode(log[0]);
      SplitOffLine(c.encode(log[0]), Encoded(c, log[1..]));
      SplitEncoded(c, log[1..]);
    }
  }

  lemma WantedFirst(log: seq<Event>, source: string)
    requires log != []
    ensures Wanted([log[0]], source) == if source != "" && log[0].source != source then [] else [log[0]]
    ensures Wanted(log, source) == Wanted([log[0]], source) + Wanted(log[1..], source)
  {
    assert [log[0]][1..] == [];
  }

  lemma FirstLine(c: Codec, log: seq<Event>, source: string)
    requires Faithful(c) && log != []
    ensures LinesOf(c, log)[0] == RawLine(c.encode(log[0]), |c.encode(log[0])| + 1) && LinesOf(c, log)[1..] == LinesOf(c, log[1..])
    ensures EventOf(c, LinesOf(c, log)[0], source) == Wanted([log[0]], source)
  {
    WantedFirst(log, source);
    assert Token(c.encode(log[0])) == c.encode(log[0]);
  }

  lemma EncodedSize(c: Codec, log: seq<Event>)
    requires log != []
    ensures |Encoded(c, log)| == |c.encode(log[0])| + 1 + |Encoded(c, log[1..])|
    ensures LinesOf(c, log) != []
  {
  }

  lemma ShortFirst(c: Codec, log: seq<Event>)
    requires Scannable(c, log) && log != []
    ensures |c.encode(log[0])| < MAX_LINE && Scannable(c, log[1..])
  {
    assert log[0] in log;
    assert forall e :: e in log[1..] ==> e in log;
  }

  // Scanning an encoded log takes one event off it.
  lemma ScanOneEvent(c: Codec, log: seq<Event>, source: string, room: nat)
    requires Faithful(c) && Scannable(c, log) && log != [] && room > 0
    ensures var first, n := Wanted([log[0]], source), |c.encode(log[0])| + 1;
            && |Encoded(c, log)| == n + |Encoded(c, log[1..])|
            && Wanted(log, source) == first + Wanted(log[1..], source)
            && |first| <= 1
            && ScanLines(c, LinesOf(c, log), source, room)
               == Ahead(first, n, ScanLines(c, LinesOf(c, log[1..]), source, room - |first|))
    ensures Scannable(c, log[1..])
  {
    hide Encoded, Wanted, LinesOf, Faithful, Scannable, EventOf;
    EncodedSize(c, log);
    ShortFirst(c, log);
    WantedFirst(log, source);
    FirstLine(c, log, source);
  }

  // The scan found the first `room` of the wanted events, and got through everything if there are fewer.
  predicate Thorough(scan: Scan, length: nat, wanted: seq<Event>, room: nat) {
    && scan.Scanned?
    && scan.consumed <= length
    && scan.events == FirstN(wanted, room)
    && (|wanted| < room ==> scan.consumed == length)
    && (scan.consumed == length ==> |wanted| <= room)
  }

  lemma ThoroughAhead(first: seq<Event>, n: nat, rest: Scan, length: nat, wanted: seq<Event>, room: nat)
    requires |first| <= 1 <= room && Thorough(rest, length, wanted, room - |first|)
    ensures Thorough(Ahead(first, n, rest), n + length, first + wanted, room)
  {
  }

  lemma NothingToScan(c: Codec, log: seq<Event>, source: string, room: nat)
    requires log == [] || room == 0
    ensures Thorough(ScanLines(c, LinesOf(c, log), source, room), |Encoded(c, log)|, Wanted(log, source), room)
  {
  }

  lemma {:induction false} ScanOfLines(c: Codec, log: seq<Event>, source: string, room: nat)
    requires Faithful(c) && Scannable(c, log)
    ensures Thorough(ScanLines(c, LinesOf(c, log), source, room), |Encoded(c, log)|, Wanted(log, source), room)
    decreases |log|
  {
    hide Thorough, Encoded, Wanted, LinesOf, ScanLines, Faithful, Scannable;
    if log == [] || room == 0 {
      NothingToScan(c, log, source, room);
    } else {
      ScanOneEvent(c, log, source, room);
      var first := Wanted([log[0]], source);
      ScanOfLines(c, log[1..], source, room - |first|);
      ThoroughAhead(first, |c.encode(log[0])| + 1, ScanLines(c, LinesOf(c, log[1..]), source, room - |first|),
                    |Encoded(c, log[1..])|, Wanted(log[1..], source), room);
    }
  }

  lemma ScanOfLog(c: Codec, log: seq<Event>, source: string, room: nat)
    requires Faithful(c) && Scannable(c, log)
    ensures Thorough(ScanData(c, Encoded(c, log), source, room), |Encoded(c, log)|, Wanted(log, source), room)
  {
    SplitEncoded(c, log);
    ScanOfLines(c, log, source, room);
  }

  // ---------------------------------------------------------------- runs of one reader on one file

  // The log on disk, the store's cursor, and everything the reads have returned so far.
  datatype TailState = TailState(log: seq<Event>, cursor: Cursor, delivered: seq<Event>)

  datatype TailStep = Append(event: Event) | ReadTail(limit: int, readAhead: nat)

  function StepRead(c: Codec, s: TailState, path: string, source: string, a: TailStep): (TailResult, Cursor)
    requires a.ReadTail?
  {
    ReadSpec(c, s.cursor, map[path := Readable(Encoded(c, s.log))], path, source, a.limit, a.readAhead)
  }

  function TakeStep(c: Codec, s: TailState, path: string, source: string, a: TailStep): TailState {
    match a
    case Append(e) => s.(log := s.log + [e])
    case ReadTail(_, _) =>
      match StepRead(c, s, path, source, a)
      case (OpenError, _) => s
      case (ScanError, _) => s
      case (Events(events), cursor) => TailState(s.log, cursor, s.delivered + events)
  }

  function TakeSteps(c: Codec, s: TailState, path: string, source: string, steps: seq<TailStep>): TailState
    decreases |steps|
  {
    if steps == [] then s
    else TakeStep(c, TakeSteps(c, s, path, source, steps[..|steps| - 1]), path, source, steps[|steps| - 1])
  }

  // A read that is not cut short: it returned fewer events than its limit, or its last event was the
  // last line of the file.
  predicate ReadsThrough(c: Codec, s: TailState, path: string, source: string, a: TailStep) {
    a.ReadTail? ==>
      var pending := From(Encoded(c, s.log), StartOffset(s.cursor, path));
      match ScanData(c, pending, source, EffectiveLimit(a.limit))
      case TooLongLine => false
      case Scanned(events, consumed) => |events| < EffectiveLimit(a.limit) || consumed == |pending|
  }

  predicate AllReadThrough(c: Codec, s: TailState, path: string, source: string, steps: seq<TailStep>)
    decreases |steps|
  {
    steps == [] ||
    var front := steps[..|steps| - 1];
    AllReadThrough(c, s, path, source, front) && ReadsThrough(c, TakeSteps(c, s, path, source, front), path, source, steps[|steps| - 1])
  }

  // The first `read` events of the log have been delivered, as far as they are wanted.
  predicate Delivered(c: Codec, s: TailState, path: string, source: string, read: nat) {
    && read <= |s.log|
    && StartOffset(s.cursor, path) == |Encoded(c, s.log[..read])|
    && s.delivered == Wanted(s.log[..read], source)
  }

  lemma PendingIsRest(c: Codec, s: TailState, path: string, source: string, read: nat)
    requires Delivered(c, s, path, source, read)
    ensures var offset := StartOffset(s.cursor, path);
            && From(Encoded(c, s.log), offset) == Encoded(c, s.log[read..])
            && offset + |Encoded(c, s.log[read..])| == |Encoded(c, s.log)|
    ensures Wanted(s.log, source) == s.delivered + Wanted(s.log[read..], source)
  {
    assert s.log == s.log[..read] + s.log[read..];
    EncodedAppend(c, s.log[..read], s.log[read..]);
    WantedAppend(s.log[..read], s.log[read..], source);
  }

  lemma ReadGivenScan(c: Codec, s: TailState, path: string, source: string, limit: int, readAhead: nat, events: seq<Event>, consumed: nat)
    requires path != ""
    requires var pending := From(Encoded(c, s.log), StartOffset(s.cursor, path));
             ScanData(c, pending, source, EffectiveLimit(limit)) == Scanned(events, consumed)
    ensures var pending := From(Encoded(c, s.log), StartOffset(s.cursor, path));
            StepRead(c, s, path, source, ReadTail(limit, readAhead))
            == (Events(events),
                Cursor(path, StartOffset(s.cursor, path) + Position(0, |pending|, consumed, |events|, EffectiveLimit(limit), readAhead)))
  {
    hide Encoded, ScanData;
  }

  lemma ReadDelivers(c: Codec, s: TailState, path: string, source: string, read: nat, limit: int, readAhead: nat)
    requires Faithful(c) && path != "" && Delivered(c, s, path, source, read) && Scannable(c, s.log)
    requires ReadsThrough(c, s, path, source, ReadTail(limit, readAhead))
    ensures Delivered(c, TakeStep(c, s, path, source, ReadTail(limit, readAhead)), path, source, |s.log|)
  {
    var rest := s.log[read..];
    var scan := ScanData(c, Encoded(c, rest), source, EffectiveLimit(limit));
    PendingIsRest(c, s, path, source, read);
    assert Thorough(scan, |Encoded(c, rest)|, Wanted(rest, source), EffectiveLimit(limit)) by {
      ScanOfLog(c, rest, source, EffectiveLimit(limit));
    }
    ReadGivenScan(c, s, path, source, limit, readAhead, scan.events, scan.consumed);
    assert s.log[..|s.log|] == s.log;
  }

  lemma StepDelivers(c: Codec, s: TailState, path: string, source: string, read: nat, a: TailStep)
    requires Faithful(c) && path != "" && Delivered(c, s, path, source, read)
    requires ReadsThrough(c, s, path, source, a)
    requires a.ReadTail? ==> Scannable(c, s.log)
    ensures Delivered(c, TakeStep(c, s, path, source, a), path, source, if a.ReadTail? then |s.log| else read)
  {
    match a
    case Append(e) => assert (s.log + [e])[..read] == s.log[..read];
    case ReadTail(limit, readAhead) => ReadDelivers(c, s, path, source, read, limit, readAhead);
  }

  // How much of the log there was at the last read; `read` of it before the first.
  function ReadUpTo(c: Codec, s: TailState, path: string, source: string, read: nat, steps: seq<TailStep>): nat
    decreases |steps|
  {
    if steps == [] then read
    else
      var front := steps[..|steps| - 1];
      if steps[|steps| - 1].ReadTail? then |TakeSteps(c, s, path, source, front).log| else ReadUpTo(c, s, path, source, read, front)
  }

  lemma {:induction false} StepsDeliver(c: Codec, s: TailState, path: string, source: string, read: nat, steps: seq<TailStep>)
    requires Faithful(c) && path != "" && Delivered(c, s, path, source, read)
    requires AllReadThrough(c, s, path, source, steps)
    requires Scannable(c, TakeSteps(c, s, path, source, steps).log)
    ensures Delivered(c, TakeSteps(c, s, path, source, steps), path, source, ReadUpTo(c, s, path, source, read, steps))
    decreases |steps|
  {
    if steps != [] {
      var front, a := steps[..|steps| - 1], steps[|steps| - 1];
      StillScannable(c, TakeSteps(c, s, path, source, front), path, source, a);
      StepsDeliver(c, s, path, source, read, front);
      StepDelivers(c, TakeSteps(c, s, path, source, front), path, source, ReadUpTo(c, s, path, source, read, front), a);
    }
  }

  lemma StillScannable(c: Codec, s: TailState, path: string, source: string, a: TailStep)
    requires Scannable(c, TakeStep(c, s, path, source, a).log)
    ensures Scannable(c, s.log)
  {
    assert forall e :: e in s.log ==> e in TakeStep(c, s, path, source, a).log;
  }

  const START := TailState([], Cursor("", 0), [])

  // Over any sequence of appends and reads in which no read is cut short, what the reads return, put
  // together, is the wanted events of the log as the last read found it: each exactly once and in order.
  lemma ReadsAreExactlyOnce(c: Codec, path: string, source: string, steps: seq<TailStep>)
    requires Faithful(c) && path != "" && AllReadThrough(c, START, path, source, steps)
    requires Scannable(c, TakeSteps(c, START, path, source, steps).log)
    ensures var s, n := TakeSteps(c, START, path, source, steps), ReadUpTo(c, START, path, source, 0, steps);
            n <= |s.log| && s.delivered == Wanted(s.log[..n], source)
  {
    StepsDeliver(c, START, path, source, 0, steps);
  }

  // After one more read nothing is missing at all.
  lemma LastReadCatchesUp(c: Codec, path: string, source: string, steps: seq<TailStep>, last: TailStep)
    requires Faithful(c) && path != "" && last.ReadTail?
    requires AllReadThrough(c, START, path, source, steps)
    requires var s := TakeSteps(c, START, path, source, steps);
             Scannable(c, s.log) && ReadsThrough(c, s, path, source, last)
    ensures var s := TakeStep(c, TakeSteps(c, START, path, source, steps), path, source, last);
            s.delivered == Wanted(s.log, source)
  {
    StepsDeliver(c, START, path, source, 0, steps);
    var s := TakeSteps(c, START, path, source, steps);
    StepDelivers(c, s, path, source, ReadUpTo(c, START, path, source, 0, steps), last);
    assert s.log[..|s.log|] == s.log;
  }

  // ---------------------------------------------------------------- two readers of one store

  // The cursor belongs to the store, not to the reader. After the reads of `path` have caught up, any read
  // of another file makes the next read of `path` start over and return everything again, up to its
  // limit, unless that other read found no file or failed; then the next read returns nothing.
  lemma TwoReadersRepeat(c: Codec, files: map<string, TailFile>, log: seq<Event>, path: string, source: string, limit: int, readAhead: nat,
                         otherPath: string, otherSource: string, otherLimit: int, otherReadAhead: nat)
    requires Faithful(c) && Scannable(c, log) && path != "" && otherPath != path
    requires path in files && files[path] == Readable(Encoded(c, log))
    ensures var caughtUp := Cursor(path, |Encoded(c, log)|);
            var between := ReadSpec(c, caughtUp, files, otherPath, otherSource, otherLimit, otherReadAhead);
            var again := ReadSpec(c, between.1, files, path, source, limit, readAhead);
            && (between.1.file == path <==> otherPath == "" || otherPath !in files || !between.0.Events?)
            && again.0 == Events(if between.1.file == path then [] else FirstN(Wanted(log, source), EffectiveLimit(limit)))
  {
    ScanOfLog(c, log, source, EffectiveLimit(limit));
    var data := Encoded(c, log);
    assert data[0..] == data && data[|data|..] == [];
  }
}

// Reads of internal/activity/activity.go that stop at their limit, at any cursor, and reads over several
// days: what they return and what they lose.

module ActivityTailLoss {
  import opened GoSlices
  import opened GoText
  import ActivityFiles
  import opened ActivityTail

  // How many events a scan with this room goes through.
  function ScannedCount(log: seq<Event>, source: string, room: nat): (n: nat)
    ensures n <= |log|
  {
    if log == [] || room == 0 then 0
    else 1 + ScannedCount(log[1..], source, if source != "" && log[0].source != source then room else room - 1)
  }

  // How many events of an encoded log begin before a byte offset.
  function Begun(c: Codec, log: seq<Event>, offset: nat): (n: nat)
    ensures n <= |log|
    decreases |log|
  {
    if log == [] || offset == 0 then 0
    else
      var n := |c.encode(log[0])| + 1;
      1 + Begun(c, log[1..], if offset <= n then 0 else offset - n)
  }

  lemma TakeOneMore(c: Codec, log: seq<Event>, source: string, n: nat)
    requires 0 < n <= |log|
    ensures Wanted(log[..n], source) == Wanted([log[0]], source) + Wanted(log[1..][..n - 1], source)
    ensures |Encoded(c, log[..n])| == |c.encode(log[0])| + 1 + |Encoded(c, log[1..][..n - 1])|
  {
    assert log[..n] == [log[0]] + log[1..][..n - 1];
    WantedAppend([log[0]], log[1..][..n - 1], source);
    assert log[..n][1..] == log[1..][..n - 1];
  }

  lemma NothingScanned(c: Codec, log: seq<Event>, source: string, room: nat)
    requires log == [] || room == 0
    ensures ScannedCount(log, source, room) == 0 && ScanLines(c, LinesOf(c, log), source, room) == Scanned([], 0)
    ensures Wanted(log[..0], source) == [] && |Encoded(c, log[..0])| == 0
  {
  }

  lemma ScannedOneMore(log: seq<Event>, source: string, room: nat)
    requires log != [] && room > 0
    ensures |Wanted([log[0]], source)| <= 1
    ensures ScannedCount(log, source, room) == 1 + ScannedCount(log[1..], source, room - |Wanted([log[0]], source)|)
  {
    assert [log[0]][1..] == [];
  }

  lemma {:induction false} ScanStopsAt(c: Codec, log: seq<Event>, source: string, room: nat)
    requires Faithful(c) && Scannable(c, log)
    ensures var n := ScannedCount(log, source, room);
            ScanLines(c, LinesOf(c, log), source, room) == Scanned(Wanted(log[..n], source), |Encoded(c, log[..n])|)
    decreases |log|
  {
    hide Encoded, Wanted, LinesOf, ScanLines, Faithful, Scannable, ScannedCount;
    if log == [] || room == 0 {
      NothingScanned(c, log, source, room);
    } else {
      var first := Wanted([log[0]], source);
      ScannedOneMore(log, source, room);
      ScanOneEvent(c, log, source, room);
      ScanStopsAt(c, log[1..], source, room - |first|);
      TakeOneMore(c, log, source, ScannedCount(log, source, room));
    }
  }

  // JSON objects have no proper suffix that decodes.
  ghost predicate NoSuffixDecodes(c: Codec) {
    forall e, i :: 0 < i <= |c.encode(e)| ==> c.decode(c.encode(e)[i..]) == None
  }

  lemma DropInLine(line: seq<Byte>, rest: seq<Byte>, offset: nat)
    ensures offset <= |line| ==> (line + [LF] + rest)[offset..] == line[offset..] + [LF] + rest
    ensures |line| < offset <= |line| + 1 + |rest| ==> (line + [LF] + rest)[offset..] == rest[offset - |line| - 1..]
  {
  }

  // Cutting into the first line of some lines.
  lemma InsideFirstLine(line: seq<Byte>, rest: seq<Byte>, offset: nat)
    requires LF !in line && offset <= |line|
    ensures SplitLines((line + [LF] + rest)[offset..]) == [RawLine(line[offset..], |line| - offset + 1)] + SplitLines(rest)
  {
    DropInLine(line, rest, offset);
    SplitOffLine(line[offset..], rest);
  }

  // The bytes of a broken line, if there is one.
  function Size(broken: seq<RawLine>): nat {
    if broken == [] then 0 else broken[0].size
  }

  // What there is to read from an offset: possibly the rest of a broken line, and then the lines of the
  // events that begin there or later.
  predicate ReadsFrom(c: Codec, log: seq<Event>, offset: nat, broken: seq<RawLine>)
    requires offset <= |Encoded(c, log)|
  {
    var next := Begun(c, log, offset);
    && SplitLines(Encoded(c, log)[offset..]) == broken + LinesOf(c, log[next..])
    && offset + Size(broken) == |Encoded(c, log[..next])|
  }

  lemma ReadsFromStart(c: Codec, log: seq<Event>)
    requires Faithful(c)
    ensures ReadsFrom(c, log, 0, [])
  {
    assert Encoded(c, log)[0..] == Encoded(c, log) && log[0..] == log;
    SplitEncoded(c, log);
  }

  lemma FirstLine(c: Codec, log: seq<Event>, offset: nat)
    requires log != [] && 0 < offset <= |c.encode(log[0])|
    ensures Begun(c, log, offset) == 1
    ensures |Encoded(c, log[..1])| == |c.encode(log[0])| + 1
  {
    TakeOneMore(c, log, "", 1);
    assert log[1..][..0] == [];
  }

  lemma NoNewline(c: Codec, e: Event)
    requires Faithful(c)
    ensures LF !in c.encode(e)
  {
  }

  lemma CutFirstLine(c: Codec, log: seq<Event>, offset: nat)
    requires Faithful(c) && log != [] && offset <= |c.encode(log[0])|
    ensures offset <= |Encoded(c, log)|
    ensures SplitLines(Encoded(c, log)[offset..])
         == [RawLine(c.encode(log[0])[offset..], |c.encode(log[0])| - offset + 1)] + LinesOf(c, log[1..])
  {
    hide *;
    var line := c.encode(log[0]);
    NoNewline(c, log[0]);
    EncodedLine(c, log);
    InsideFirstLine(line, Encoded(c, log[1..]), offset);
    SplitEncoded(c, log[1..]);
  }

  lemma ReadsFromInside(c: Codec, log: seq<Event>, offset: nat)
    requires Faithful(c) && log != [] && 0 < offset <= |c.encode(log[0])|
    ensures offset <= |Encoded(c, log)|
    ensures ReadsFrom(c, log, offset, [RawLine(c.encode(log[0])[offset..], |c.encode(log[0])| - offset + 1)])
  {
    FirstLine(c, log, offset);
    CutFirstLine(c, log, offset);
    hide Encoded, LinesOf, SplitLines, Begun, Faithful;
  }

  lemma ReadsFromLater(c: Codec, log: seq<Event>, offset: nat, broken: seq<RawLine>)
    requires log != [] && |c.encode(log[0])| < offset <= |Encoded(c, log)|
    requires offset - |c.encode(log[0])| - 1 <= |Encoded(c, log[1..])|
    requires ReadsFrom(c, log[1..], offset - |c.encode(log[0])| - 1, broken)
    ensures ReadsFrom(c, log, offset, broken)
  {
    var n, next := |c.encode(log[0])| + 1, Begun(c, log, offset);
    assert next == 1 + Begun(c, log[1..], offset - n);
    hide Encoded, LinesOf, SplitLines, Begun, Wanted;
    EncodedLine(c, log);
    DropInLine(c.encode(log[0]), Encoded(c, log[1..]), offset);
    assert log[next..] == log[1..][next - 1..];
    TakeOneMore(c, log, "", next);
  }

  lemma EncodedLine(c: Codec, log: seq<Event>)
    requires log != []
    ensures Encoded(c, log) == c.encode(log[0]) + [LF] + Encoded(c, log[1..])
  {
  }

  lemma {:induction false} LinesFrom(c: Codec, log: seq<Event>, offset: nat) returns (broken: seq<RawLine>)
    requires Faithful(c) && offset <= |Encoded(c, log)|
    ensures ReadsFrom(c, log, offset, broken)
    ensures broken == [] || exists e, i :: e in log && BrokenLine(c, e, i, broken)
    decreases |log|
  {
    EncodedLength(c, log);
    hide Encoded, ReadsFrom, Faithful;
    broken := [];
    if log == [] || offset == 0 {
      ReadsFromStart(c, log);
    } else {
      var n := |c.encode(log[0])| + 1;
      if offset >= n {
        broken := LinesFrom(c, log[1..], offset - n);
        ReadsFromLater(c, log, offset, broken);
      } else {
        ReadsFromInside(c, log, offset);
        broken := [RawLine(c.encode(log[0])[offset..], n - offset)];
        assert BrokenLine(c, log[0], offset, broken);
      }
    }
  }

  lemma EncodedLength(c: Codec, log: seq<Event>)
    ensures |Encoded(c, log)| == if log == [] then 0 else |c.encode(log[0])| + 1 + |Encoded(c, log[1..])|
  {
  }

  // The rest of an encoded event, from its i-th byte on.
  predicate BrokenLine(c: Codec, e: Event, i: nat, lines: seq<RawLine>) {
    0 < i <= |c.encode(e)| && lines == [RawLine(c.encode(e)[i..], |c.encode(e)| - i + 1)]
  }

  // A broken line yields nothing.
  lemma BrokenLineIsSkipped(c: Codec, e: Event, i: nat, broken: seq<RawLine>, lines: seq<RawLine>, source: string, room: nat)
    requires Faithful(c) && NoSuffixDecodes(c) && BrokenLine(c, e, i, broken) && |c.encode(e)| < MAX_LINE && room > 0
    ensures ScanLines(c, broken + lines, source, room) == Ahead([], broken[0].size, ScanLines(c, lines, source, room))
  {
    assert Token(broken[0].text) == broken[0].text;
    assert (broken + lines)[1..] == lines;
  }

  lemma {:induction false} BegunCovers(c: Codec, log: seq<Event>, n: nat, offset: nat)
    requires n <= |log| && |Encoded(c, log[..n])| <= offset
    ensures n <= Begun(c, log, offset)
    decreases |log|
  {
    if n > 0 {
      assert log[..n][1..] == log[1..][..n - 1];
      BegunCovers(c, log[1..], n - 1, if offset <= |c.encode(log[0])| + 1 then 0 else offset - |c.encode(log[0])| - 1);
    }
  }

  lemma EncodedPrefix(c: Codec, log: seq<Event>, n: nat)
    requires n <= |log|
    ensures |Encoded(c, log[..n])| <= |Encoded(c, log)|
  {
    assert log == log[..n] + log[n..];
    EncodedAppend(c, log[..n], log[n..]);
  }

  // ---------------------------------------------------------------- one read, whatever happened before

  lemma ScanAfterBroken(c: Codec, log: seq<Event>, broken: seq<RawLine>, rest: seq<Event>, source: string, room: nat)
    requires Faithful(c) && NoSuffixDecodes(c) && Scannable(c, log) && Scannable(c, rest) && room > 0
    requires broken == [] || exists e, i :: e in log && BrokenLine(c, e, i, broken)
    ensures var n := ScannedCount(rest, source, room);
            ScanLines(c, broken + LinesOf(c, rest), source, room)
            == Scanned(Wanted(rest[..n], source), Size(broken) + |Encoded(c, rest[..n])|)
  {
    ScanStopsAt(c, rest, source, room);
    if broken == [] {
      assert [] + LinesOf(c, rest) == LinesOf(c, rest);
    } else {
      var e, i :| e in log && BrokenLine(c, e, i, broken);
      BrokenLineIsSkipped(c, e, i, broken, LinesOf(c, rest), source, room);
      var found := Wanted(rest[..ScannedCount(rest, source, room)], source);
      assert [] + found == found;
    }
  }

  lemma EncodedSplits(c: Codec, log: seq<Event>, from: nat, n: nat)
    requires from + n <= |log|
    ensures |Encoded(c, log[..from + n])| == |Encoded(c, log[..from])| + |Encoded(c, log[from..][..n])|
    ensures log[from..from + n] == log[from..][..n]
  {
    assert log[..from + n] == log[..from] + log[from..][..n];
    EncodedAppend(c, log[..from], log[from..][..n]);
  }

  lemma ScanFrom(c: Codec, log: seq<Event>, offset: nat, source: string, room: nat)
    requires Faithful(c) && NoSuffixDecodes(c) && Scannable(c, log) && offset <= |Encoded(c, log)| && room > 0
    ensures var from := Begun(c, log, offset);
            var to := from + ScannedCount(log[from..], source, room);
            && offset <= |Encoded(c, log[..to])|
            && ScanData(c, Encoded(c, log)[offset..], source, room)
               == Scanned(Wanted(log[from..to], source), |Encoded(c, log[..to])| - offset)
  {
    hide Encoded, Wanted, Begun, ScannedCount, LinesOf, SplitLines, ScanLines, Faithful, NoSuffixDecodes;
    var broken := LinesFrom(c, log, offset);
    assert ReadsFrom(c, log, offset, broken);
    var from := Begun(c, log, offset);
    var rest := log[from..];
    var n := ScannedCount(rest, source, room);
    assert Scannable(c, rest);
    ScanAfterBroken(c, log, broken, rest, source, room);
    EncodedSplits(c, log, from, n);
  }

  // The slice of the log that a read goes through, and the cursor after it.
  datatype Slice = Slice(from: nat, to: nat)

  function SliceOf(c: Codec, log: seq<Event>, offset: nat, source: string, limit: int): (slice: Slice)
    ensures slice.from <= slice.to <= |log|
  {
    var from := Begun(c, log, offset);
    Slice(from, from + ScannedCount(log[from..], source, EffectiveLimit(limit)))
  }

  function CursorAfter(c: Codec, log: seq<Event>, slice: Slice, source: string, limit: int, readAhead: nat): nat
    requires slice.from <= slice.to <= |log|
  {
    var end, scanned := |Encoded(c, log)|, |Encoded(c, log[..slice.to])|;
    if |Wanted(log[slice.from..slice.to], source)| < EffectiveLimit(limit) || scanned + readAhead >= end then end
    else scanned + readAhead
  }

  // Any read, at any cursor that earlier reads may have left, even inside a line: it returns the wanted
  // events of a slice that starts with the first line beginning at the cursor or later, and it leaves the
  // cursor behind that slice, further on by the read-ahead if the limit stopped it.
  lemma ReadReturnsAndSkips(c: Codec, s: TailState, path: string, source: string, limit: int, readAhead: nat)
    requires Faithful(c) && NoSuffixDecodes(c) && path != "" && Scannable(c, s.log)
    requires StartOffset(s.cursor, path) <= |Encoded(c, s.log)|
    ensures var slice := SliceOf(c, s.log, StartOffset(s.cursor, path), source, limit);
            var at := CursorAfter(c, s.log, slice, source, limit, readAhead);
            && TakeStep(c, s, path, source, ReadTail(limit, readAhead))
               == TailState(s.log, Cursor(path, at), s.delivered + Wanted(s.log[slice.from..slice.to], source))
            && at <= |Encoded(c, s.log)| && slice.to <= Begun(c, s.log, at)
  {
    hide Encoded, Wanted, Begun, ScannedCount, ScanData, Faithful, NoSuffixDecodes, Scannable, StepRead;
    var offset := StartOffset(s.cursor, path);
    var slice := SliceOf(c, s.log, offset, source, limit);
    ScanFrom(c, s.log, offset, source, EffectiveLimit(limit));
    ReadGivenScan(c, s, path, source, limit, readAhead, Wanted(s.log[slice.from..slice.to], source), |Encoded(c, s.log[..slice.to])| - offset);
    EncodedPrefix(c, s.log, slice.to);
    BegunCovers(c, s.log, slice.to, CursorAfter(c, s.log, slice, source, limit, readAhead));
  }

  // If the scanner's buffer takes in everything that is left, a read loses nothing exactly if no more
  // wanted events are left than its limit; the cursor is then at the end.
  lemma LimitDecidesLoss(c: Codec, s: TailState, path: string, source: string, limit: int, readAhead: nat)
    requires Faithful(c) && NoSuffixDecodes(c) && path != "" && Scannable(c, s.log)
    requires StartOffset(s.cursor, path) <= |Encoded(c, s.log)| <= readAhead
    ensures var from := Begun(c, s.log, StartOffset(s.cursor, path));
            var s' := TakeStep(c, s, path, source, ReadTail(limit, readAhead));
            && s'.cursor == Cursor(path, |Encoded(c, s.log)|)
            && (s'.delivered == s.delivered + Wanted(s.log[from..], source)
                <==> |Wanted(s.log[from..], source)| <= EffectiveLimit(limit))
  {
    hide Encoded, Wanted, Begun, ScannedCount, TakeStep, Faithful, NoSuffixDecodes, Scannable;
    var from := Begun(c, s.log, StartOffset(s.cursor, path));
    var n := ScannedCount(s.log[from..], source, EffectiveLimit(limit));
    ReadReturnsAndSkips(c, s, path, source, limit, readAhead);
    ScannedIsFirst(s.log[from..], source, EffectiveLimit(limit));
    assert s.log[from..from + n] == s.log[from..][..n];
  }

  lemma {:induction false} ScannedIsFirst(log: seq<Event>, source: string, room: nat)
    ensures Wanted(log[..ScannedCount(log, source, room)], source) == FirstN(Wanted(log, source), room)
    decreases |log|
  {
    if log != [] && room > 0 {
      var n := ScannedCount(log, source, room);
      var wanted := !(source != "" && log[0].source != source);
      ScannedIsFirst(log[1..], source, if wanted then room - 1 else room);
      assert log[..n][0] == log[0] && log[..n][1..] == log[1..][..n - 1];
    }
  }

  // ---------------------------------------------------------------- runs in which reads may be cut short

  // Slices one after the other, up to an end.
  predicate Ascending(slices: seq<Slice>, end: nat)
    decreases |slices|
  {
    slices == [] ||
    var last := slices[|slices| - 1];
    last.from <= last.to <= end && Ascending(slices[..|slices| - 1], last.from)
  }

  function Returned(log: seq<Event>, slices: seq<Slice>, source: string): seq<Event>
    requires Ascending(slices, |log|)
    decreases |slices|
  {
    if slices == [] then []
    else
      var last := slices[|slices| - 1];
      AscendingBound(slices[..|slices| - 1], last.from, |log|);
      Returned(log, slices[..|slices| - 1], source) + Wanted(log[last.from..last.to], source)
  }

  // The wanted events of the gaps: before, between and after the slices.
  function Missed(log: seq<Event>, slices: seq<Slice>, end: nat, source: string): seq<Event>
    requires end <= |log| && Ascending(slices, end)
    decreases |slices|
  {
    if slices == [] then Wanted(log[..end], source)
    else
      var last := slices[|slices| - 1];
      Missed(log, slices[..|slices| - 1], last.from, source) + Wanted(log[last.to..end], source)
  }

  lemma {:induction false} AscendingBound(slices: seq<Slice>, end: nat, later: nat)
    requires Ascending(slices, end) && end <= later
    ensures Ascending(slices, later)
  {
  }

  // Slices that ascend have no position in common, so no event is in two of them.
  lemma {:induction false} SlicesAreDisjoint(slices: seq<Slice>, end: nat, i: nat, j: nat)
    requires Ascending(slices, end) && i < j < |slices|
    ensures slices[i].from <= slices[i].to <= slices[j].from <= slices[j].to <= end
    decreases |slices|
  {
    var front := slices[..|slices| - 1];
    if j < |front| {
      SlicesAreDisjoint(front, slices[|slices| - 1].from, i, j);
      assert slices[i] == front[i] && slices[j] == front[j];
    } else {
      SliceIsBefore(front, slices[|slices| - 1].from, i);
      assert slices[i] == front[i];
    }
  }

  lemma {:induction false} SliceIsBefore(slices: seq<Slice>, end: nat, i: nat)
    requires Ascending(slices, end) && i < |slices|
    ensures slices[i].from <= slices[i].to <= end
    decreases |slices|
  {
    if i < |slices| - 1 {
      SliceIsBefore(slices[..|slices| - 1], slices[|slices| - 1].from, i);
    }
  }

  // Returned and missed events together are as many as the wanted ones, and nothing is missed exactly if
  // all wanted events were returned.
  lemma {:induction false} MissedOrReturned(log: seq<Event>, slices: seq<Slice>, end: nat, source: string)
    requires end <= |log| && Ascending(slices, end) && Ascending(slices, |log|)
    ensures |Returned(log, slices, source)| + |Missed(log, slices, end, source)| == |Wanted(log[..end], source)|
    ensures Returned(log, slices, source) == Wanted(log[..end], source) <==> Missed(log, slices, end, source) == []
    decreases |slices|
  {
    if slices == [] {
    } else {
      var front, last := slices[..|slices| - 1], slices[|slices| - 1];
      AscendingBound(front, last.from, |log|);
      MissedOrReturned(log, front, last.from, source);
      assert log[..end] == log[..last.from] + log[last.from..last.to] + log[last.to..end];
      WantedAppend(log[..last.from] + log[last.from..last.to], log[last.to..end], source);
      WantedAppend(log[..last.from], log[last.from..last.to], source);
    }
  }

  // The slices that the reads of a run go through.
  function SlicesOf(c: Codec, s: TailState, path: string, source: string, steps: seq<TailStep>): seq<Slice>
    decreases |steps|
  {
    if steps == [] then []
    else
      var front, a := steps[..|steps| - 1], steps[|steps| - 1];
      var before := TakeSteps(c, s, path, source, front);
      SlicesOf(c, s, path, source, front)
        + if a.ReadTail? then [SliceOf(c, before.log, StartOffset(before.cursor, path), source, a.limit)] else []
  }

  // What has been returned are the slices, and the cursor is behind them.
  ghost predicate Tracks(c: Codec, s: TailState, path: string, source: string, slices: seq<Slice>) {
    && StartOffset(s.cursor, path) <= |Encoded(c, s.log)|
    && Ascending(slices, Begun(c, s.log, StartOffset(s.cursor, path)))
    && Ascending(slices, |s.log|)
    && s.delivered == Returned(s.log, slices, source)
  }

  lemma {:induction false} BegunStays(c: Codec, log: seq<Event>, more: seq<Event>, offset: nat)
    requires offset <= |Encoded(c, log)|
    ensures Begun(c, log + more, offset) == Begun(c, log, offset)
    decreases |log|
  {
    if log != [] && offset > 0 {
      assert (log + more)[0] == log[0] && (log + more)[1..] == log[1..] + more;
      var n := |c.encode(log[0])| + 1;
      BegunStays(c, log[1..], more, if offset <= n then 0 else offset - n);
    }
  }

  lemma {:induction false} ReturnedStays(log: seq<Event>, more: seq<Event>, slices: seq<Slice>, source: string)
    requires Ascending(slices, |log|)
    ensures Ascending(slices, |log + more|) && Returned(log + more, slices, source) == Returned(log, slices, source)
    decreases |slices|
  {
    AscendingBound(slices, |log|, |log + more|);
    if slices != [] {
      var front, last := slices[..|slices| - 1], slices[|slices| - 1];
      AscendingBound(front, last.from, |log|);
      ReturnedStays(log, more, front, source);
      assert (log + more)[last.from..last.to] == log[last.from..last.to];
    }
  }

  lemma AppendTracks(c: Codec, s: TailState, path: string, source: string, slices: seq<Slice>, e: Event)
    requires Tracks(c, s, path, source, slices)
    ensures Tracks(c, TakeStep(c, s, path, source, Append(e)), path, source, slices)
  {
    EncodedAppend(c, s.log, [e]);
    BegunStays(c, s.log, [e], StartOffset(s.cursor, path));
    ReturnedStays(s.log, [e], slices, source);
  }

  lemma ReadTracks(c: Codec, s: TailState, path: string, source: string, slices: seq<Slice>, limit: int, readAhead: nat)
    requires Faithful(c) && NoSuffixDecodes(c) && path != "" && Scannable(c, s.log) && Tracks(c, s, path, source, slices)
    ensures var slice := SliceOf(c, s.log, StartOffset(s.cursor, path), source, limit);
            Tracks(c, TakeStep(c, s, path, source, ReadTail(limit, readAhead)), path, source, slices + [slice])
  {
    var slice := SliceOf(c, s.log, StartOffset(s.cursor, path), source, limit);
    ReadReturnsAndSkips(c, s, path, source, limit, readAhead);
    assert (slices + [slice])[..|slices|] == slices;
  }

  lemma {:induction false} RunTracks(c: Codec, s: TailState, path: string, source: string, steps: seq<TailStep>)
    requires Faithful(c) && NoSuffixDecodes(c) && path != "" && Tracks(c, s, path, source, [])
    requires Scannable(c, TakeSteps(c, s, path, source, steps).log)
    ensures Tracks(c, TakeSteps(c, s, path, source, steps), path, source, SlicesOf(c, s, path, source, steps))
    decreases |steps|
  {
    if steps != [] {
      var front, a := steps[..|steps| - 1], steps[|steps| - 1];
      var before := TakeSteps(c, s, path, source, front);
      StillScannable(c, before, path, source, a);
      RunTracks(c, s, path, source, front);
      match a
      case Append(e) =>
        AppendTracks(c, before, path, source, SlicesOf(c, s, path, source, front), e);
        assert SlicesOf(c, s, path, source, steps) == SlicesOf(c, s, path, source, front);
      case ReadTail(limit, readAhead) =>
        ReadTracks(c, before, path, source, SlicesOf(c, s, path, source, front), limit, readAhead);
    }
  }

  // Over any appends and reads, with whatever limits and read-aheads, the reads return the wanted events of
  // ascending slices of the log: in order and none twice. Up to the cursor, they missed exactly the wanted
  // events of the gaps between the slices, hence nothing exactly if no gap holds a wanted event.
  lemma ReadsReturnAscendingSlices(c: Codec, path: string, source: string, steps: seq<TailStep>)
    requires Faithful(c) && NoSuffixDecodes(c) && path != "" && Scannable(c, TakeSteps(c, START, path, source, steps).log)
    ensures var s, slices := TakeSteps(c, START, path, source, steps), SlicesOf(c, START, path, source, steps);
            var end := Begun(c, s.log, StartOffset(s.cursor, path));
            && Ascending(slices, end) && Ascending(slices, |s.log|)
            && s.delivered == Returned(s.log, slices, source)
            && |s.delivered| + |Missed(s.log, slices, end, source)| == |Wanted(s.log[..end], source)|
            && (s.delivered == Wanted(s.log[..end], source) <==> Missed(s.log, slices, end, source) == [])
  {
    RunTracks(c, START, path, source, steps);
    var s, slices := TakeSteps(c, START, path, source, steps), SlicesOf(c, START, path, source, steps);
    MissedOrReturned(s.log, slices, Begun(c, s.log, StartOffset(s.cursor, path)), source);
  }

  // ---------------------------------------------------------------- several days

  // A day of a source: what its file held before the day's first read or append, the appends and reads of
  // the day, and what is appended to the file once the reads have gone on to the next day's.
  datatype DayOfReads = DayOfReads(date: ActivityFiles.Day, before: seq<Event>, steps: seq<TailStep>, late: seq<Event>)

  // The day starts with the cursor the days before it have left. A file that does not exist yet is read
  // like an empty one: nothing is returned, and the first read that finds it starts at its beginning.
  function StartOfDay(c: Codec, days: seq<DayOfReads>, i: nat, source: string): TailState
    requires i < |days|
    decreases i, 0
  {
    TailState(days[i].before, if i == 0 then Cursor("", 0) else EndOfDay(c, days, i - 1, source).cursor, [])
  }

  function EndOfDay(c: Codec, days: seq<DayOfReads>, i: nat, source: string): TailState
    requires i < |days|
    decreases i, 1
  {
    TakeSteps(c, StartOfDay(c, days, i, source), PathFor(source, days[i].date), source, days[i].steps)
  }

  // Everything the reads of the first n days return.
  function DeliveredOver(c: Codec, days: seq<DayOfReads>, n: nat, source: string): seq<Event>
    requires n <= |days|
  {
    if n == 0 then [] else DeliveredOver(c, days, n - 1, source) + EndOfDay(c, days, n - 1, source).delivered
  }

  // The source is in normal form, the days follow one another, and no read is cut short.
  ghost predicate Regular(c: Codec, days: seq<DayOfReads>, source: string) {
    && source != "" && ActivityFiles.NormalizeSourceName(source) == source
    && (forall i :: 0 <= i < |days| ==> 0 <= days[i].date.year <= 9999)
    && (forall i, j :: 0 <= i < j < |days| ==> ActivityFiles.Precedes(days[i].date, days[j].date))
    && (forall i :: 0 <= i < |days| ==>
          && AllReadThrough(c, StartOfDay(c, days, i, source), PathFor(source, days[i].date), source, days[i].steps)
          && Scannable(c, EndOfDay(c, days, i, source).log))
  }

  lemma DaysHaveOwnFiles(source: string, d: ActivityFiles.Day, e: ActivityFiles.Day)
    requires source != "" && ActivityFiles.NormalizeSourceName(source) == source
    requires 0 <= d.year <= 9999 && 0 <= e.year <= 9999 && ActivityFiles.Precedes(d, e)
    ensures PathFor(source, d) != PathFor(source, e)
  {
    ActivityFiles.LogDayRoundTrip(source, d);
    ActivityFiles.LogDayRoundTrip(source, e);
    ActivityFiles.TextOrderIsCalendarOrder(d, e);
    ActivityFiles.CalendarOrder(d, e);
    ActivityFiles.LessIsStrict(ActivityFiles.DateText(d));
  }

  lemma {:induction false} CursorStaysOrMoves(c: Codec, s: TailState, path: string, source: string, steps: seq<TailStep>)
    ensures TakeSteps(c, s, path, source, steps).cursor == s.cursor || TakeSteps(c, s, path, source, steps).cursor.file == path
    decreases |steps|
  {
    if steps != [] {
      CursorStaysOrMoves(c, s, path, source, steps[..|steps| - 1]);
    }
  }

  predicate OwnFiles(days: seq<DayOfReads>, source: string) {
    && (forall i :: 0 <= i < |days| ==> PathFor(source, days[i].date) != "")
    && (forall i, j :: 0 <= i < j < |days| ==> PathFor(source, days[i].date) != PathFor(source, days[j].date))
  }

  lemma RegularDaysHaveOwnFiles(c: Codec, days: seq<DayOfReads>, source: string)
    requires Regular(c, days, source)
    ensures OwnFiles(days, source)
  {
    forall i, j | 0 <= i < j < |days| ensures PathFor(source, days[i].date) != PathFor(source, days[j].date) {
      DaysHaveOwnFiles(source, days[i].date, days[j].date);
    }
  }

  // The cursor a day starts with is none of its own file.
  lemma {:induction false} CursorIsBehind(c: Codec, days: seq<DayOfReads>, i: nat, j: nat, source: string)
    requires i <= j < |days| && OwnFiles(days, source)
    ensures StartOfDay(c, days, i, source).cursor.file != PathFor(source, days[j].date)
    decreases i
  {
    hide TakeSteps, PathFor;
    if i > 0 {
      CursorIsBehind(c, days, i - 1, j, source);
      CursorStaysOrMoves(c, StartOfDay(c, days, i - 1, source), PathFor(source, days[i - 1].date), source, days[i - 1].steps);
    }
  }

  // How much of the day's file there was at the day's last read.
  function ReadOfDay(c: Codec, days: seq<DayOfReads>, i: nat, source: string): nat
    requires i < |days|
  {
    ReadUpTo(c, StartOfDay(c, days, i, source), PathFor(source, days[i].date), source, 0, days[i].steps)
  }

  // The day's file in the end.
  function FinalLog(c: Codec, days: seq<DayOfReads>, i: nat, source: string): seq<Event>
    requires i < |days|
  {
    EndOfDay(c, days, i, source).log + days[i].late
  }

  // Day by day, the reads return the wanted events of the day's file as its last read found it, and what is
  // lost for good are exactly the wanted events appended to it later.
  lemma EachDayLosesItsTail(c: Codec, days: seq<DayOfReads>, i: nat, source: string)
    requires Faithful(c) && i < |days| && Regular(c, days, source)
    ensures var final, read := FinalLog(c, days, i, source), ReadOfDay(c, days, i, source);
            && read <= |final|
            && EndOfDay(c, days, i, source).delivered == Wanted(final[..read], source)
            && Wanted(final, source) == EndOfDay(c, days, i, source).delivered + Wanted(final[read..], source)
  {
    RegularDaysHaveOwnFiles(c, days, source);
    CursorIsBehind(c, days, i, i, source);
    DayDelivers(c, StartOfDay(c, days, i, source), PathFor(source, days[i].date), source, days[i].steps, days[i].late);
  }

  lemma DayDelivers(c: Codec, start: TailState, path: string, source: string, steps: seq<TailStep>, late: seq<Event>)
    requires Faithful(c) && path != "" && start.cursor.file != path && start.delivered == []
    requires AllReadThrough(c, start, path, source, steps) && Scannable(c, TakeSteps(c, start, path, source, steps).log)
    ensures var final, read := TakeSteps(c, start, path, source, steps).log + late, ReadUpTo(c, start, path, source, 0, steps);
            && read <= |final|
            && TakeSteps(c, start, path, source, steps).delivered == Wanted(final[..read], source)
            && Wanted(final, source) == Wanted(final[..read], source) + Wanted(final[read..], source)
  {
    assert Delivered(c, start, path, source, 0) by {
      assert start.log[..0] == [];
    }
    StepsDeliver(c, start, path, source, 0, steps);
    hide Encoded, Wanted, TakeSteps, AllReadThrough, ReadUpTo, Faithful, Scannable;
    var end, read := TakeSteps(c, start, path, source, steps), ReadUpTo(c, start, path, source, 0, steps);
    var final := end.log + late;
    assert final[..read] == end.log[..read];
    assert final == final[..read] + final[read..];
    WantedAppend(final[..read], final[read..], source);
  }

  // All wanted events of the first n days' files.
  function AppendedOver(c: Codec, days: seq<DayOfReads>, n: nat, source: string): seq<Event>
    requires n <= |days|
  {
    if n == 0 then [] else AppendedOver(c, days, n - 1, source) + Wanted(FinalLog(c, days, n - 1, source), source)
  }

  // No wanted event was appended to the day's file after the day's last read.
  predicate LosesNothing(c: Codec, days: seq<DayOfReads>, i: nat, source: string)
    requires i < |days|
  {
    var final, read := FinalLog(c, days, i, source), ReadOfDay(c, days, i, source);
    read <= |final| && Wanted(final[read..], source) == []
  }

  predicate NothingLost(c: Codec, days: seq<DayOfReads>, n: nat, source: string)
    requires n <= |days|
  {
    n == 0 || (NothingLost(c, days, n - 1, source) && LosesNothing(c, days, n - 1, source))
  }

  // Over all days together the reads return every wanted event exactly if no day loses any.
  lemma {:induction false} DaysLoseTheirTails(c: Codec, days: seq<DayOfReads>, n: nat, source: string)
    requires Faithful(c) && n <= |days| && Regular(c, days, source)
    ensures |DeliveredOver(c, days, n, source)| <= |AppendedOver(c, days, n, source)|
    ensures DeliveredOver(c, days, n, source) == AppendedOver(c, days, n, source) <==> NothingLost(c, days, n, source)
    decreases n
  {
    hide *;
    if n == 0 {
      NoDays(c, days, source);
    } else {
      DaysLoseTheirTails(c, days, n - 1, source);
      EachDayLosesItsTail(c, days, n - 1, source);
      OneMoreDay(c, days, n, source);
    }
  }

  lemma NoDays(c: Codec, days: seq<DayOfReads>, source: string)
    ensures DeliveredOver(c, days, 0, source) == AppendedOver(c, days, 0, source) == [] && NothingLost(c, days, 0, source)
  {
  }

  lemma OneMoreDay(c: Codec, days: seq<DayOfReads>, n: nat, source: string)
    requires 0 < n <= |days|
    requires |DeliveredOver(c, days, n - 1, source)| <= |AppendedOver(c, days, n - 1, source)|
    requires var final, read := FinalLog(c, days, n - 1, source), ReadOfDay(c, days, n - 1, source);
             read <= |final| && Wanted(final, source) == EndOfDay(c, days, n - 1, source).delivered + Wanted(final[read..], source)
    ensures |DeliveredOver(c, days, n, source)| <= |AppendedOver(c, days, n, source)|
    ensures DeliveredOver(c, days, n, source) == AppendedOver(c, days, n, source)
       <==> DeliveredOver(c, days, n - 1, source) == AppendedOver(c, days, n - 1, source) && LosesNothing(c, days, n - 1, source)
    ensures NothingLost(c, days, n, source) <==> NothingLost(c, days, n - 1, source) && LosesNothing(c, days, n - 1, source)
  {
    var final, read := FinalLog(c, days, n - 1, source), ReadOfDay(c, days, n - 1, source);
    TailsCompare(DeliveredOver(c, days, n - 1, source), EndOfDay(c, days, n - 1, source).delivered,
                 AppendedOver(c, days, n - 1, source), Wanted(final[read..], source));
  }

  lemma TailsCompare(d: seq<Event>, x: seq<Event>, a: seq<Event>, lost: seq<Event>)
    requires |d| <= |a|
    ensures d + x == a + (x + lost) <==> d == a && lost == []
  {
    if d + x == a + (x + lost) {
      assert |d| == |a| && |lost| == 0;
      assert d == (d + x)[..|d|] && a == (a + (x + lost))[..|a|];
    }
  }
}

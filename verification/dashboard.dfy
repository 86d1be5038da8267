// The dashboard's live event cache: internal/dashboard/activity_ingest.go and dashboard.go.

module LiveDashboard {
  import opened GoSlices
  import opened GoText

  const MAX_EVENTS := 200
  const MAX_SEEN_IDS := 2000

  // The timestamp 0 is Go's zero time; the payload stands for the fields the cache only passes on.
  datatype Event = Event(id: string, agentId: string, channel: string, timestamp: int, payload: string)

  datatype Agent = Agent(id: string, connectedAt: int, lastActivity: int, requestCount: nat)

  function AgentIdOrAnonymous(agentId: string): string {
    if TrimSpace(agentId) == "" then "anonymous" else TrimSpace(agentId)
  }

  // An incoming event with the random ID and the clock reading it would be completed with.
  datatype Incoming = Incoming(raw: Event, newId: string, now: int)

  function NormalizeEvent(x: Incoming): Event {
    Event(if x.raw.id == "" then x.newId else x.raw.id,
          if x.raw.agentId == "" then "anonymous" else x.raw.agentId,
          if x.raw.channel == "" then "tool_call" else x.raw.channel,
          if x.raw.timestamp == 0 then x.now else x.raw.timestamp,
          x.raw.payload)
  }

  // ---------------------------------------------------------------- the full history

  function Ids(h: seq<Event>): (ids: seq<string>)
    ensures |ids| == |h| && forall i :: 0 <= i < |h| ==> ids[i] == h[i].id
  {
    if h == [] then [] else Ids(h[..|h| - 1]) + [h[|h| - 1].id]
  }

  // An event is accepted unless its ID is among the last MAX_SEEN_IDS accepted ones.
  predicate Known(h: seq<Event>, id: string) {
    id in LastN(Ids(h), MAX_SEEN_IDS)
  }

  function Accept(h: seq<Event>, e: Event): seq<Event> {
    if Known(h, e.id) then h else h + [e]
  }

  function AcceptAll(h: seq<Event>, batch: seq<Incoming>): seq<Event> {
    if batch == [] then h else Accept(AcceptAll(h, batch[..|batch| - 1]), NormalizeEvent(batch[|batch| - 1]))
  }

  function CountFor(h: seq<Event>, agent: string): nat {
    if h == [] then 0
    else CountFor(h[..|h| - 1], agent) + if AgentIdOrAnonymous(h[|h| - 1].agentId) == agent then 1 else 0
  }

  // The agent's first and last event.
  function FirstOf(h: seq<Event>, agent: string): Option<int> {
    if h == [] then None
    else if FirstOf(h[..|h| - 1], agent).Some? then FirstOf(h[..|h| - 1], agent)
    else if AgentIdOrAnonymous(h[|h| - 1].agentId) == agent then Some(h[|h| - 1].timestamp)
    else None
  }

  function LatestOf(h: seq<Event>, agent: string): Option<int> {
    if h == [] then None
    else if AgentIdOrAnonymous(h[|h| - 1].agentId) == agent then Some(h[|h| - 1].timestamp)
    else LatestOf(h[..|h| - 1], agent)
  }

  // The agent summary that the history calls for.
  function Summary(h: seq<Event>, agent: string): Option<Agent> {
    match (FirstOf(h, agent), LatestOf(h, agent))
    case (Some(first), Some(latest)) => Some(Agent(agent, first, latest, CountFor(h, agent)))
    case _ => None
  }

  lemma HistoryAppend(h: seq<Event>, e: Event, agent: string)
    ensures var mine := AgentIdOrAnonymous(e.agentId) == agent;
            && FirstOf(h + [e], agent) == (if FirstOf(h, agent).None? && mine then Some(e.timestamp) else FirstOf(h, agent))
            && LatestOf(h + [e], agent) == (if mine then Some(e.timestamp) else LatestOf(h, agent))
            && CountFor(h + [e], agent) == CountFor(h, agent) + if mine then 1 else 0
  {
  }

  function Updated(agents: map<string, Agent>, e: Event): map<string, Agent> {
    var a := AgentIdOrAnonymous(e.agentId);
    agents[a := if a in agents then agents[a].(lastActivity := e.timestamp, requestCount := agents[a].requestCount + 1)
                else Agent(a, e.timestamp, e.timestamp, 1)]
  }

  // The agent map is the summaries of the history.
  ghost predicate Summarizes(agents: map<string, Agent>, h: seq<Event>) {
    && (forall a :: a in agents <==> Summary(h, a).Some?)
    && (forall a :: a in agents ==> Some(agents[a]) == Summary(h, a))
  }

  lemma SummaryAppend(agents: map<string, Agent>, h: seq<Event>, e: Event)
    requires Summarizes(agents, h)
    ensures Summarizes(Updated(agents, e), h + [e])
  {
    forall a ensures (a in Updated(agents, e) <==> Summary(h + [e], a).Some?)
                     && (a in Updated(agents, e) ==> Some(Updated(agents, e)[a]) == Summary(h + [e], a)) {
      HistoryAppend(h, e, a);
      SeenTogether(h, a);
      assert a in agents <==> Summary(h, a).Some?;
    }
  }

  lemma {:induction false} SeenTogether(h: seq<Event>, agent: string)
    ensures FirstOf(h, agent).Some? <==> LatestOf(h, agent).Some?
    ensures FirstOf(h, agent).Some? <==> CountFor(h, agent) > 0
  {
    if h != [] {
      SeenTogether(h[..|h| - 1], agent);
    }
  }

  lemma LastNAppend<T>(s: seq<T>, x: T, n: nat)
    requires n > 0
    ensures LastN(s + [x], n) == if |s| < n then LastN(s, n) + [x] else LastN(s, n)[1..] + [x]
  {
  }

  lemma IdsAppend(h: seq<Event>, e: Event)
    ensures Ids(h + [e]) == Ids(h) + [e.id]
  {
  }

  // Splitting a batch makes no difference.
  lemma {:induction false} BatchesCompose(h: seq<Event>, a: seq<Incoming>, b: seq<Incoming>)
    ensures AcceptAll(h, a + b) == AcceptAll(AcceptAll(h, a), b)
    decreases |b|
  {
    if b == [] {
      assert a + b == a;
    } else {
      assert (a + b)[..|a + b| - 1] == a + b[..|b| - 1];
      BatchesCompose(h, a, b[..|b| - 1]);
    }
  }

  lemma AcceptOneMore(h: seq<Event>, batch: seq<Incoming>, i: nat)
    requires i < |batch|
    ensures AcceptAll(h, batch[..i + 1]) == Accept(AcceptAll(h, batch[..i]), NormalizeEvent(batch[i]))
  {
    assert batch[..i + 1][..i] == batch[..i];
  }

  // None of the last 2000 accepted events has this ID.
  predicate FreshId(h: seq<Event>, id: string) {
    forall i :: 0 <= i < |h| && i >= |h| - 2000 ==> h[i].id != id
  }

  lemma FreshIsUnknown(h: seq<Event>, id: string)
    ensures FreshId(h, id) <==> !Known(h, id)
  {
    hide Ids;
    var last := LastN(Ids(h), MAX_SEEN_IDS);
    var skipped := |h| - |last|;
    assert last == Ids(h)[skipped..];
    if Known(h, id) {
      var i :| 0 <= i < |last| && last[i] == id;
      assert h[skipped + i].id == id;
    }
    if !FreshId(h, id) {
      var i :| 0 <= i < |h| && i >= |h| - 2000 && h[i].id == id;
      assert last[i - skipped] == id;
    }
  }

  // A batch of one is accepted unless its ID is among those of the last 2000 accepted events, and is completed
  // where it says nothing. With BatchesCompose this decides every batch.
  lemma OneIsAccepted(h: seq<Event>, x: Incoming)
    ensures AcceptAll(h, [x])
         == var id := if x.raw.id == "" then x.newId else x.raw.id;
            if FreshId(h, id)
            then h + [Event(id, if x.raw.agentId == "" then "anonymous" else x.raw.agentId,
                            if x.raw.channel == "" then "tool_call" else x.raw.channel,
                            if x.raw.timestamp == 0 then x.now else x.raw.timestamp, x.raw.payload)]
            else h
  {
    FreshIsUnknown(h, NormalizeEvent(x).id);
    hide FreshId, Known;
    assert [x][..0] == [] && AcceptAll(h, []) == h;
  }

  predicate DistinctIds(ids: seq<string>) {
    forall i, j :: 0 <= i < j < |ids| ==> ids[i] != ids[j]
  }

  // Within any MAX_SEEN_IDS consecutive accepted events no ID repeats.
  lemma {:induction false} RecentIdsAreDistinct(h: seq<Event>, batch: seq<Incoming>)
    requires DistinctIds(LastN(Ids(h), MAX_SEEN_IDS))
    ensures DistinctIds(LastN(Ids(AcceptAll(h, batch)), MAX_SEEN_IDS))
    decreases |batch|
  {
    hide NormalizeEvent, Ids;
    if batch != [] {
      var front := AcceptAll(h, batch[..|batch| - 1]);
      var e := NormalizeEvent(batch[|batch| - 1]);
      RecentIdsAreDistinct(h, batch[..|batch| - 1]);
      if !Known(front, e.id) {
        IdsAppend(front, e);
        LastNAppend(Ids(front), e.id, MAX_SEEN_IDS);
      }
    }
  }

  // ---------------------------------------------------------------- the cache

  // The log of seen IDs and its set.
  ghost predicate SeenIn(ids: set<string>, log: seq<string>) {
    DistinctIds(log) && forall id :: id in ids <==> id in log
  }

  // The cache that a history calls for.
  ghost predicate Caches(agents: map<string, Agent>, recent: seq<Event>, ids: set<string>, log: seq<string>, h: seq<Event>) {
    && Summarizes(agents, h)
    && recent == LastN(h, MAX_EVENTS)
    && log == LastN(Ids(h), MAX_SEEN_IDS)
    && SeenIn(ids, log)
  }

  function Shifted<T>(buffer: seq<T>, x: T, max: nat): seq<T>
    requires max > 0
  {
    if |buffer| >= max then buffer[1..] + [x] else buffer + [x]
  }

  lemma CachesAppend(agents: map<string, Agent>, recent: seq<Event>, ids: set<string>, ids': set<string>, log: seq<string>, h: seq<Event>, e: Event)
    requires Caches(agents, recent, ids, log, h)
    requires SeenIn(ids', Shifted(log, e.id, MAX_SEEN_IDS))
    ensures Caches(Updated(agents, e), Shifted(recent, e, MAX_EVENTS), ids', Shifted(log, e.id, MAX_SEEN_IDS), h + [e])
  {
    SummaryAppend(agents, h, e);
    IdsAppend(h, e);
    LastNAppend(Ids(h), e.id, MAX_SEEN_IDS);
    LastNAppend(h, e, MAX_EVENTS);
  }

  lemma CachesKnow(agents: map<string, Agent>, recent: seq<Event>, ids: set<string>, log: seq<string>, h: seq<Event>)
    requires Caches(agents, recent, ids, log, h)
    ensures SeenIn(ids, log)
    ensures forall id :: id in ids <==> Known(h, id)
    ensures forall id :: id in log <==> Known(h, id)
  {
  }

  class Dashboard {
    var agents: map<string, Agent>
    var recentEvents: seq<Event>
    var seenEventIDs: set<string>
    var seenEventLog: seq<string>

    ghost var accepted: seq<Event>  // everything ever accepted

    // The whole state is determined by the history.
    ghost predicate Valid()
      reads this
    {
      Caches(agents, recentEvents, seenEventIDs, seenEventLog, accepted)
    }

    constructor ()
      ensures Valid() && accepted == []
    {
      agents, recentEvents, seenEventIDs, seenEventLog, accepted := map[], [], {}, [], [];
    }

    // rememberEventIDLocked. The set stays the set of the log if the ID is new, which recordEvents checks.
    method RememberEventID(id: string)
      modifies this`seenEventIDs, this`seenEventLog
      ensures id == "" ==> seenEventLog == old(seenEventLog) && seenEventIDs == old(seenEventIDs)
      ensures id != "" ==>
                && seenEventLog == Shifted(old(seenEventLog), id, MAX_SEEN_IDS)
                && seenEventIDs == old(seenEventIDs) + {id}
                     - if |old(seenEventLog)| >= MAX_SEEN_IDS then {old(seenEventLog)[0]} else {}
      ensures id !in old(seenEventLog) && SeenIn(old(seenEventIDs), old(seenEventLog)) ==> SeenIn(seenEventIDs, seenEventLog)
    {
      if id == "" {
        return;
      }
      seenEventIDs := seenEventIDs + {id};
      seenEventLog := seenEventLog + [id];
      if |seenEventLog| <= MAX_SEEN_IDS {
        return;
      }
      var evicted := seenEventLog[0];
      ghost var before := seenEventLog;
      seenEventLog := seenEventLog[1..];
      seenEventIDs := seenEventIDs - {evicted};
      assert forall x :: x in before <==> x == evicted || x in seenEventLog;
    }

    // upsertAgentLocked
    method UpsertAgent(e: Event)
      modifies this`agents
      ensures agents == Updated(old(agents), e)
    {
      var id := AgentIdOrAnonymous(e.agentId);
      if id !in agents {
        agents := agents[id := Agent(id, e.timestamp, 0, 0)];
      }
      agents := agents[id := agents[id].(lastActivity := e.timestamp, requestCount := agents[id].requestCount + 1)];
    }

    // The part of recordEvents for one event; tells whether it was accepted.
    method RecordOne(x: Incoming) returns (taken: bool)
      requires Valid() && x.newId != ""
      modifies this
      ensures Valid()
      ensures accepted == Accept(old(accepted), NormalizeEvent(x))
      ensures accepted == old(accepted) + if taken then [NormalizeEvent(x)] else []
      ensures taken <==> FreshId(old(accepted), if x.raw.id == "" then x.newId else x.raw.id)
      ensures taken ==>
                var e := accepted[|accepted| - 1];
                && e.id == (if x.raw.id == "" then x.newId else x.raw.id)
                && e.agentId == (if x.raw.agentId == "" then "anonymous" else x.raw.agentId)
                && e.channel == (if x.raw.channel == "" then "tool_call" else x.raw.channel)
                && e.timestamp == (if x.raw.timestamp == 0 then x.now else x.raw.timestamp)
                && e.payload == x.raw.payload
    {
      hide FreshId, Updated, Caches, Known, SeenIn, Ids;
      FreshIsUnknown(accepted, NormalizeEvent(x).id);
      CachesKnow(agents, recentEvents, seenEventIDs, seenEventLog, accepted);
      var e := NormalizeEvent(x);
      if e.id in seenEventIDs {
        return false;
      }
      RememberEventID(e.id);
      UpsertAgent(e);
      if |recentEvents| >= MAX_EVENTS {
        recentEvents := recentEvents[1..] + [e];
      } else {
        recentEvents := recentEvents + [e];
      }
      CachesAppend(old(agents), old(recentEvents), old(seenEventIDs), seenEventIDs, old(seenEventLog), accepted, e);
      accepted := accepted + [e];
      return true;
    }

    // What is broadcast is exactly what was newly accepted, in order.
    method RecordEvents(batch: seq<Incoming>) returns (broadcast: seq<Event>)
      requires Valid() && forall i :: 0 <= i < |batch| ==> batch[i].newId != ""
      modifies this
      ensures Valid()
      ensures accepted == AcceptAll(old(accepted), batch)
      ensures accepted == old(accepted) + broadcast
    {
      hide Caches, Accept, NormalizeEvent;
      broadcast := [];
      for i := 0 to |batch|
        invariant Valid()
        invariant accepted == AcceptAll(old(accepted), batch[..i])
        invariant accepted == old(accepted) + broadcast
      {
        AcceptOneMore(old(accepted), batch, i);
        var taken := RecordOne(batch[i]);
        if taken {
          broadcast := broadcast + [NormalizeEvent(batch[i])];
        }
      }
      assert batch[..|batch|] == batch;
    }

    method EventsForAgent(rawAgentId: string, mode: string) returns (out: seq<Event>)
      ensures out == Select(recentEvents, AgentIdOrAnonymous(rawAgentId), mode)
      ensures ShowsExactly(recentEvents, AgentIdOrAnonymous(rawAgentId), mode, out)
    {
      hide ShowsExactly, AgentIdOrAnonymous, MatchesMode;
      SelectShows(recentEvents, AgentIdOrAnonymous(rawAgentId), mode);
      var agentId := AgentIdOrAnonymous(rawAgentId);
      out := [];
      for i := 0 to |recentEvents|
        invariant out == Select(recentEvents[..i], agentId, mode)
      {
        assert recentEvents[..i + 1][..i] == recentEvents[..i];
        if recentEvents[i].agentId != agentId || !MatchesMode(mode, recentEvents[i].channel) {
          continue;
        }
        out := out + [recentEvents[i]];
      }
      assert recentEvents[..|recentEvents|] == recentEvents;
    }
  }

  predicate MatchesMode(mode: string, channel: string) {
    if mode == "both" then channel == "tool_call" || channel == "progress"
    else if mode == "progress" then channel == "progress"
    else channel == "tool_call"
  }

  function Select(events: seq<Event>, agentId: string, mode: string): seq<Event> {
    if events == [] then []
    else
      var e := events[|events| - 1];
      Select(events[..|events| - 1], agentId, mode)
        + if e.agentId == agentId && MatchesMode(mode, e.channel) then [e] else []
  }

  // The channels a mode shows: progress events are left to the modes that name them, and anything but
  // "progress" shows tool calls.
  predicate ShownIn(mode: string, channel: string) {
    || (channel == "tool_call" && mode != "progress")
    || (channel == "progress" && mode in {"both", "progress"})
  }

  // The i-th event shown is the at[i]-th buffered one.
  ghost predicate Picks(events: seq<Event>, at: seq<nat>, out: seq<Event>) {
    && |at| == |out|
    && (forall i :: 0 <= i < |at| ==> at[i] < |events| && out[i] == events[at[i]])
    && (forall i, j :: 0 <= i < j < |at| ==> at[i] < at[j])
  }

  // Exactly the agent's events in the mode's channels are shown, in the order in which they are buffered.
  ghost predicate ShowsExactly(events: seq<Event>, agentId: string, mode: string, out: seq<Event>) {
    exists at :: Picks(events, at, out)
      && forall k: nat :: k in at <==> k < |events| && Shown(events[k], agentId, mode)
  }

  predicate Shown(e: Event, agentId: string, mode: string) {
    e.agentId == agentId && ShownIn(mode, e.channel)
  }

  lemma PicksOneMore(events: seq<Event>, at: seq<nat>, out: seq<Event>, e: Event)
    requires Picks(events, at, out)
    ensures Picks(events + [e], at, out) && Picks(events + [e], at + [|events|], out + [e])
  {
  }

  lemma {:induction false} SelectPicks(events: seq<Event>, agentId: string, mode: string) returns (at: seq<nat>)
    ensures Picks(events, at, Select(events, agentId, mode))
    ensures forall k: nat :: k in at <==> k < |events| && Shown(events[k], agentId, mode)
  {
    hide Picks, Shown;
    at := [];
    if events == [] {
      NothingPicked(agentId, mode);
    } else {
      var n := |events| - 1;
      at := SelectPicks(events[..n], agentId, mode);
      assert events == events[..n] + [events[n]];
      PicksOneMore(events[..n], at, Select(events[..n], agentId, mode), events[n]);
      assert Select(events[..n], agentId, mode) + [] == Select(events[..n], agentId, mode);
      ModeShows(agentId, mode, events[n]);
      if Shown(events[n], agentId, mode) {
        at := at + [n];
      }
    }
  }

  lemma NothingPicked(agentId: string, mode: string)
    ensures Picks([], [], Select([], agentId, mode))
  {
  }

  lemma ModeShows(agentId: string, mode: string, e: Event)
    ensures e.agentId == agentId && MatchesMode(mode, e.channel) <==> Shown(e, agentId, mode)
  {
  }

  lemma SelectShows(events: seq<Event>, agentId: string, mode: string)
    ensures ShowsExactly(events, agentId, mode, Select(events, agentId, mode))
  {
    var at := SelectPicks(events, agentId, mode);
  }

  // ---------------------------------------------------------------- summaries

  predicate IsOf(e: Event, agent: string) {
    AgentIdOrAnonymous(e.agentId) == agent
  }

  function Mine(h: seq<Event>, agent: string): set<nat> {
    set i: nat | i < |h| && IsOf(h[i], agent)
  }

  lemma {:induction false} FirstIs(h: seq<Event>, agent: string) returns (i: nat)
    ensures FirstOf(h, agent).None? ==> forall j :: 0 <= j < |h| ==> !IsOf(h[j], agent)
    ensures FirstOf(h, agent).Some? ==>
              && i < |h| && IsOf(h[i], agent) && FirstOf(h, agent) == Some(h[i].timestamp)
              && forall j :: 0 <= j < i ==> !IsOf(h[j], agent)
  {
    hide AgentIdOrAnonymous;
    i := 0;
    if h != [] {
      i := FirstIs(h[..|h| - 1], agent);
      if FirstOf(h[..|h| - 1], agent).None? {
        i := |h| - 1;
      }
    }
  }

  lemma {:induction false} LatestIs(h: seq<Event>, agent: string) returns (i: nat)
    ensures LatestOf(h, agent).None? ==> forall j :: 0 <= j < |h| ==> !IsOf(h[j], agent)
    ensures LatestOf(h, agent).Some? ==>
              && i < |h| && IsOf(h[i], agent) && LatestOf(h, agent) == Some(h[i].timestamp)
              && forall j :: i < j < |h| ==> !IsOf(h[j], agent)
  {
    hide AgentIdOrAnonymous;
    i := 0;
    if h != [] {
      i := LatestIs(h[..|h| - 1], agent);
      if IsOf(h[|h| - 1], agent) {
        i := |h| - 1;
      }
    }
  }

  lemma {:induction false} CountIsSize(h: seq<Event>, agent: string)
    ensures CountFor(h, agent) == |Mine(h, agent)|
  {
    hide AgentIdOrAnonymous;
    if h == [] {
      assert Mine(h, agent) == {};
    } else {
      var n := |h| - 1;
      CountIsSize(h[..n], agent);
      if IsOf(h[n], agent) {
        assert Mine(h, agent) == Mine(h[..n], agent) + {n};
      } else {
        assert Mine(h, agent) == Mine(h[..n], agent);
      }
    }
  }

  // An agent's summary: the times of its first and its last event, and how many there are.
  ghost predicate SumsUp(h: seq<Event>, agent: string, a: Agent) {
    && a.id == agent
    && (exists i :: 0 <= i < |h| && IsOf(h[i], agent) && a.connectedAt == h[i].timestamp && forall j :: 0 <= j < i ==> !IsOf(h[j], agent))
    && (exists i :: 0 <= i < |h| && IsOf(h[i], agent) && a.lastActivity == h[i].timestamp && forall j :: i < j < |h| ==> !IsOf(h[j], agent))
    && a.requestCount == |Mine(h, agent)|
  }

  lemma SummaryMeaning(h: seq<Event>, agent: string)
    ensures Summary(h, agent).None? <==> forall i :: 0 <= i < |h| ==> !IsOf(h[i], agent)
    ensures Summary(h, agent).Some? ==> SumsUp(h, agent, Summary(h, agent).value)
  {
    var first := FirstIs(h, agent);
    var last := LatestIs(h, agent);
    SeenTogether(h, agent);
    CountIsSize(h, agent);
    hide FirstOf, LatestOf, CountFor, Mine, IsOf;
  }

  // ---------------------------------------------------------------- totals

  // The request counts of the agents in `keys`, added up in any order.
  ghost function TotalRequests(agents: map<string, Agent>, keys: set<string>): nat
    requires keys <= agents.Keys
  {
    if keys == {} then 0
    else
      var k :| k in keys;
      agents[k].requestCount + TotalRequests(agents, keys - {k})
  }

  function CountIn(h: seq<Event>, keys: set<string>): nat {
    if h == [] then 0
    else CountIn(h[..|h| - 1], keys) + if AgentIdOrAnonymous(h[|h| - 1].agentId) in keys then 1 else 0
  }

  lemma {:induction false} CountInSplits(h: seq<Event>, keys: set<string>, k: string)
    requires k in keys
    ensures CountIn(h, keys) == CountFor(h, k) + CountIn(h, keys - {k})
  {
    if h != [] {
      CountInSplits(h[..|h| - 1], keys, k);
    }
  }

  lemma {:induction false} CountInEverything(h: seq<Event>, keys: set<string>)
    requires forall i :: 0 <= i < |h| ==> AgentIdOrAnonymous(h[i].agentId) in keys
    ensures CountIn(h, keys) == |h|
  {
    if h != [] {
      CountInEverything(h[..|h| - 1], keys);
    }
  }

  lemma {:induction false} CountInNothing(h: seq<Event>)
    ensures CountIn(h, {}) == 0
  {
    if h != [] {
      CountInNothing(h[..|h| - 1]);
    }
  }

  lemma {:induction false} TotalIsCountIn(h: seq<Event>, agents: map<string, Agent>, keys: set<string>)
    requires keys <= agents.Keys
    requires forall k :: k in keys ==> agents[k].requestCount == CountFor(h, k)
    ensures TotalRequests(agents, keys) == CountIn(h, keys)
    decreases keys
  {
    if keys == {} {
      CountInNothing(h);
    } else {
      var k :| k in keys && TotalRequests(agents, keys) == agents[k].requestCount + TotalRequests(agents, keys - {k});
      CountInSplits(h, keys, k);
      TotalIsCountIn(h, agents, keys - {k});
    }
  }

  lemma {:induction false} EveryEventHasItsAgent(h: seq<Event>, i: nat)
    requires i < |h|
    ensures Summary(h, AgentIdOrAnonymous(h[i].agentId)).Some?
  {
    var agent := AgentIdOrAnonymous(h[i].agentId);
    var n := |h| - 1;
    SeenTogether(h, agent);
    if i < n {
      EveryEventHasItsAgent(h[..n], i);
      SeenTogether(h[..n], agent);
    }
  }

  // Every accepted event is counted for exactly one agent: the request counts add up to the number of
  // accepted events.
  lemma RequestCountsAddUp(d: Dashboard)
    requires d.Valid()
    ensures TotalRequests(d.agents, d.agents.Keys) == |d.accepted|
  {
    var h := d.accepted;
    forall i | 0 <= i < |h| ensures AgentIdOrAnonymous(h[i].agentId) in d.agents.Keys {
      EveryEventHasItsAgent(h, i);
    }
    assert forall k :: k in d.agents ==> Some(d.agents[k]) == Summary(h, k);
    CountInEverything(h, d.agents.Keys);
    TotalIsCountIn(h, d.agents, d.agents.Keys);
  }

  // ---------------------------------------------------------------- events an agent's page cannot show

  lemma {:induction false} SelectMembers(events: seq<Event>, agentId: string, mode: string)
    ensures forall e :: e in Select(events, agentId, mode) <==> e in events && e.agentId == agentId && MatchesMode(mode, e.channel)
  {
    if events != [] {
      SelectMembers(events[..|events| - 1], agentId, mode);
    }
  }

  lemma AgentKeysAreTrimmed(raw: string)
    ensures Trimmed(AgentIdOrAnonymous(raw))
  {
    TrimSpaceTrims(raw);
  }

  predicate ShownFor(events: seq<Event>, e: Event, query: string) {
    e in Select(events, AgentIdOrAnonymous(query), "both")
  }

  // Events keep the agent ID they come with, while counting and querying trim it: a buffered event is
  // shown for some agent exactly when its channel is known and its agent ID has no white space at its ends.
  lemma ShownForSomeAgent(events: seq<Event>, e: Event)
    requires e in events && e.agentId != ""
    ensures (exists query :: ShownFor(events, e, query)) <==> Trimmed(e.agentId) && MatchesMode("both", e.channel)
  {
    forall query ensures ShownFor(events, e, query) <==> e.agentId == AgentIdOrAnonymous(query) && MatchesMode("both", e.channel) {
      SelectMembers(events, AgentIdOrAnonymous(query), "both");
    }
    forall query ensures Trimmed(AgentIdOrAnonymous(query)) {
      AgentKeysAreTrimmed(query);
    }
    if Trimmed(e.agentId) {
      TrimmedIsFixed(e.agentId);
      assert ShownFor(events, e, e.agentId) <==> MatchesMode("both", e.channel);
    }
  }

  // ---------------------------------------------------------------- where events come from

  // The two ways in: a record of the activity log, and an event posted for the agent named in the path.
  // The body is what decoding yields, if anything; its message is trimmed into the payload.
  datatype Intake =
    | Recorded(requestId: string, agentId: string, timestamp: int, payload: string, newId: string, now: int)
    | Posted(pathId: string, body: Option<Event>, message: string, newId: string, now: int)

  // activityEventToLiveEvent, and the checks of handleAgentEventsByID and decodeProgressEvent.
  function Received(x: Intake): Option<Incoming> {
    match x
    case Recorded(requestId, agentId, timestamp, payload, newId, now) =>
      Some(Incoming(Event(requestId, AgentIdOrAnonymous(agentId), "tool_call", timestamp, payload), newId, now))
    case Posted(pathId, body, message, newId, now) =>
      if body.None? then None
      else
        var named := TrimSpace(body.value.agentId);
        var agentId := if named == "" then AgentIdOrAnonymous(AgentIdOrAnonymous(pathId)) else named;
        if TrimSpace(message) == "" then None
        else if body.value.channel != "" && body.value.channel != "progress" then None
        else if agentId != AgentIdOrAnonymous(pathId) then None
        else Some(Incoming(body.value.(agentId := AgentIdOrAnonymous(pathId), channel := "progress"), newId, now))
  }

  // The agent an ID stands for: without the white space around it, and anonymous if nothing is left.
  lemma AgentIdMeaning(raw: string) returns (i: nat, j: nat)
    ensures i <= j <= |raw| && (forall k :: 0 <= k < i || j <= k < |raw| ==> IsSpace(raw[k])) && Trimmed(raw[i..j])
    ensures AgentIdOrAnonymous(raw) == if i == j then "anonymous" else raw[i..j]
  {
    i, j := TrimSpaceTakesSpace(raw);
    TrimSpaceTrims(raw);
  }

  predicate Blank(s: string) {
    forall i :: 0 <= i < |s| ==> IsSpace(s[i])
  }

  lemma BlankTrims(s: string)
    ensures TrimSpace(s) == "" <==> Blank(s)
  {
    var i, j := TrimSpaceTakesSpace(s);
    if TrimSpace(s) != "" {
      TrimSpaceTrims(s);
      assert TrimSpace(s)[0] == s[i];
    }
  }

  // Everything in the activity log is received, and of what is posted exactly what has a message, no other
  // channel than progress, and no other agent than the one of the path.
  lemma ReceivedExactly(x: Intake)
    ensures x.Recorded? ==>
              Received(x) == Some(Incoming(Event(x.requestId, AgentIdOrAnonymous(x.agentId), "tool_call", x.timestamp, x.payload), x.newId, x.now))
    ensures x.Posted? ==>
              && (Received(x).Some? <==>
                    && x.body.Some? && !Blank(x.message) && x.body.value.channel in {"", "progress"}
                    && (Blank(x.body.value.agentId) || TrimSpace(x.body.value.agentId) == AgentIdOrAnonymous(x.pathId)))
              && (Received(x).Some? ==>
                    var e := Received(x).value.raw;
                    && Received(x).value.newId == x.newId && Received(x).value.now == x.now
                    && e.agentId == AgentIdOrAnonymous(x.pathId) && e.channel == "progress"
                    && e.id == x.body.value.id && e.timestamp == x.body.value.timestamp && e.payload == x.body.value.payload)
  {
    if x.Posted? {
      BlankTrims(x.message);
      AgentIdIsStable(x.pathId);
      if x.body.Some? {
        BlankTrims(x.body.value.agentId);
      }
    }
    hide TrimSpace, Blank, AgentIdOrAnonymous;
  }

  function ReceivedAll(xs: seq<Intake>): seq<Incoming> {
    if xs == [] then []
    else
      ReceivedAll(xs[..|xs| - 1])
        + match Received(xs[|xs| - 1]) case Some(i) => [i] case None => []
  }

  // The event is filed under the agent it names, in a channel some mode shows.
  predicate Attributed(e: Event) {
    AgentIdOrAnonymous(e.agentId) == e.agentId && MatchesMode("both", e.channel)
  }

  lemma AgentIdIsStable(raw: string)
    ensures AgentIdOrAnonymous(raw) != "" && AgentIdOrAnonymous(AgentIdOrAnonymous(raw)) == AgentIdOrAnonymous(raw)
  {
    AgentKeysAreTrimmed(raw);
    TrimmedIsFixed(AgentIdOrAnonymous(raw));
  }

  lemma {:induction false} ReceivedAreAttributed(xs: seq<Intake>)
    ensures forall i :: i in ReceivedAll(xs) ==> Attributed(NormalizeEvent(i))
  {
    if xs != [] {
      var x := xs[|xs| - 1];
      ReceivedAreAttributed(xs[..|xs| - 1]);
      AgentIdIsStable(if x.Recorded? then x.agentId else x.pathId);
    }
  }

  lemma {:induction false} AcceptedAreAttributed(batch: seq<Incoming>)
    requires forall i :: i in batch ==> Attributed(NormalizeEvent(i))
    ensures forall e :: e in AcceptAll([], batch) ==> Attributed(e)
  {
    if batch != [] {
      AcceptedAreAttributed(batch[..|batch| - 1]);
      assert batch[|batch| - 1] in batch;
    }
  }

  lemma AttributedIsShown(h: seq<Event>, recent: seq<Event>, e: Event, query: string)
    requires recent == LastN(h, MAX_EVENTS) && e in recent && Attributed(e)
    ensures ShownFor(recent, e, query) <==> AgentIdOrAnonymous(query) == e.agentId
    ensures Summary(h, e.agentId).Some?
  {
    SelectMembers(recent, AgentIdOrAnonymous(query), "both");
    var i :| 0 <= i < |h| && h[i] == e;
    EveryEventHasItsAgent(h, i);
  }

  // Whatever is received either way, every buffered event is shown for exactly the agent it names, and
  // that agent is on record with it.
  lemma ReceivedEventsAreShown(d: Dashboard, xs: seq<Intake>, e: Event, query: string)
    requires d.Valid() && d.accepted == AcceptAll([], ReceivedAll(xs)) && e in d.recentEvents
    ensures ShownFor(d.recentEvents, e, query) <==> AgentIdOrAnonymous(query) == e.agentId
    ensures ShownFor(d.recentEvents, e, e.agentId) && e.agentId in d.agents
  {
    assert Attributed(e) by {
      ReceivedAreAttributed(xs);
      AcceptedAreAttributed(ReceivedAll(xs));
      assert e in d.accepted;
    }
    AttributedIsShown(d.accepted, d.recentEvents, e, query);
    AttributedIsShown(d.accepted, d.recentEvents, e, e.agentId);
  }
}

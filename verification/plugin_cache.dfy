// The plugin's bounded cache of agent sessions, plugin/session.ts. Times are milliseconds; an operation
// that reads the clock twice has two inputs.

module PluginSessions {
  import opened GoText

  const MAX_ENTRIES := 256
  const MAX_AGE := 3600000

  // A field that may be undefined is an Option.
  datatype Context = Context(agentId: Option<string>, sessionId: Option<string>)

  datatype Entry = Entry(
    key: string,
    agentId: Option<string>,
    sessionId: Option<string>,
    lastTabId: Option<string>,
    updatedAt: int)

  // A JavaScript Map in iteration order: keys are distinct, replacing a value keeps its place.
  type Cache = seq<Entry>

  ghost predicate Absent(c: Cache, key: string) {
    forall e :: e in c ==> e.key != key
  }

  ghost predicate DistinctKeys(c: Cache) {
    c == [] || (Absent(c[1..], c[0].key) && DistinctKeys(c[1..]))
  }

  // `||` skips undefined and the empty string, `??` only undefined.
  function OrElse(a: Option<string>, b: string): string {
    if a.Some? && a.value != "" then a.value else b
  }

  function Coalesce(a: Option<string>, b: Option<string>): Option<string> {
    if a.Some? then a else b
  }

  function StateKey(ctx: Option<Context>): string {
    match ctx
    case None => "global"
    case Some(x) => OrElse(x.agentId, OrElse(x.sessionId, "global"))
  }

  function Get(c: Cache, key: string): Option<Entry> {
    if c == [] then None else if c[0].key == key then Some(c[0]) else Get(c[1..], key)
  }

  function Set(c: Cache, e: Entry): Cache {
    if c == [] then [e]
    else if c[0].key == e.key then [e] + c[1..]
    else [c[0]] + Set(c[1..], e)
  }

  function Delete(c: Cache, key: string): Cache {
    if c == [] then [] else if c[0].key == key then c[1..] else [c[0]] + Delete(c[1..], key)
  }

  // ---------------------------------------------------------------- facts about the map

  ghost predicate AllUpTo(c: Cache, now: int) {
    forall e :: e in c ==> e.updatedAt <= now
  }

  lemma {:induction false} GetFacts(c: Cache, key: string)
    ensures Get(c, key).None? <==> Absent(c, key)
    ensures Get(c, key).Some? ==> Get(c, key).value in c && Get(c, key).value.key == key
  {
    if c != [] && c[0].key != key {
      GetFacts(c[1..], key);
    }
  }

  lemma {:induction false} GetOfMember(c: Cache, e: Entry)
    requires DistinctKeys(c) && e in c
    ensures Get(c, e.key) == Some(e)
  {
    if c[0] != e {
      assert e in c[1..];
      GetOfMember(c[1..], e);
    }
  }

  lemma {:induction false} SetMembers(c: Cache, e: Entry)
    requires DistinctKeys(c)
    ensures forall x :: x in Set(c, e) <==> x == e || (x in c && x.key != e.key)
    ensures Get(Set(c, e), e.key) == Some(e)
  {
    if c != [] && c[0].key != e.key {
      SetMembers(c[1..], e);
    }
  }

  lemma {:induction false} SetKeepsDistinct(c: Cache, e: Entry)
    requires DistinctKeys(c)
    ensures DistinctKeys(Set(c, e))
  {
    if c == [] {
      assert [e][1..] == [];
    } else if c[0].key == e.key {
      assert ([e] + c[1..])[1..] == c[1..];
    } else {
      SetKeepsDistinct(c[1..], e);
      SetMembers(c[1..], e);
      assert ([c[0]] + Set(c[1..], e))[1..] == Set(c[1..], e);
    }
  }

  lemma {:induction false} SetShape(c: Cache, e: Entry)
    requires DistinctKeys(c)
    ensures DistinctKeys(Set(c, e))
    ensures if Absent(c, e.key) then Set(c, e) == c + [e] else |Set(c, e)| == |c|
  {
    SetKeepsDistinct(c, e);
    if c == [] {
      assert [e] == c + [e];
    } else if c[0].key == e.key {
      assert c[0] in c && !Absent(c, e.key);
    } else {
      SetShape(c[1..], e);
      assert c == [c[0]] + c[1..];
      assert Absent(c, e.key) <==> Absent(c[1..], e.key);
    }
  }

  lemma {:induction false} DeleteMembers(c: Cache, key: string)
    requires DistinctKeys(c)
    ensures forall x :: x in Delete(c, key) <==> x in c && x.key != key
  {
    if c != [] && c[0].key != key {
      DeleteMembers(c[1..], key);
    }
  }

  lemma {:induction false} DeleteShape(c: Cache, key: string)
    requires DistinctKeys(c)
    ensures DistinctKeys(Delete(c, key))
    ensures |Delete(c, key)| == |c| - if Absent(c, key) then 0 else 1
  {
    if c != [] {
      assert c[0] in c;
      if c[0].key != key {
        DeleteShape(c[1..], key);
        DeleteMembers(c[1..], key);
        assert ([c[0]] + Delete(c[1..], key))[1..] == Delete(c[1..], key);
        assert Absent(c, key) <==> Absent(c[1..], key);
      }
    }
  }

  // ---------------------------------------------------------------- the stable sort by time

  // Before every entry that is not older.
  function Insert(e: Entry, sorted: Cache): Cache {
    if sorted == [] || e.updatedAt <= sorted[0].updatedAt then [e] + sorted
    else [sorted[0]] + Insert(e, sorted[1..])
  }

  // Entries of the same time keep their order.
  function StableSort(c: Cache): Cache {
    if c == [] then [] else Insert(c[0], StableSort(c[1..]))
  }

  ghost predicate Ascending(c: Cache) {
    c == [] || ((forall e :: e in c[1..] ==> c[0].updatedAt <= e.updatedAt) && Ascending(c[1..]))
  }

  lemma {:induction false} InsertMembers(e: Entry, sorted: Cache)
    ensures forall x :: x in Insert(e, sorted) <==> x == e || x in sorted
    ensures |Insert(e, sorted)| == |sorted| + 1
  {
    if sorted != [] && e.updatedAt > sorted[0].updatedAt {
      InsertMembers(e, sorted[1..]);
    }
  }

  lemma {:induction false} InsertSorts(e: Entry, sorted: Cache)
    requires Ascending(sorted)
    ensures Ascending(Insert(e, sorted))
  {
    if sorted == [] || e.updatedAt <= sorted[0].updatedAt {
      assert ([e] + sorted)[1..] == sorted;
      assert forall x :: x in sorted ==> x == sorted[0] || x in sorted[1..];
    } else {
      InsertSorts(e, sorted[1..]);
      InsertMembers(e, sorted[1..]);
      assert ([sorted[0]] + Insert(e, sorted[1..]))[1..] == Insert(e, sorted[1..]);
    }
  }

  lemma {:induction false} InsertKeepsKeysDistinct(e: Entry, sorted: Cache)
    requires DistinctKeys(sorted) && Absent(sorted, e.key)
    ensures DistinctKeys(Insert(e, sorted))
  {
    if sorted == [] || e.updatedAt <= sorted[0].updatedAt {
      assert ([e] + sorted)[1..] == sorted;
    } else {
      assert sorted[0] in sorted;
      InsertKeepsKeysDistinct(e, sorted[1..]);
      InsertMembers(e, sorted[1..]);
      assert ([sorted[0]] + Insert(e, sorted[1..]))[1..] == Insert(e, sorted[1..]);
    }
  }

  lemma {:induction false} StableSortFacts(c: Cache)
    requires DistinctKeys(c)
    ensures Ascending(StableSort(c)) && DistinctKeys(StableSort(c)) && |StableSort(c)| == |c|
    ensures forall x :: x in StableSort(c) <==> x in c
  {
    if c != [] {
      StableSortFacts(c[1..]);
      InsertMembers(c[0], StableSort(c[1..]));
      InsertSorts(c[0], StableSort(c[1..]));
      InsertKeepsKeysDistinct(c[0], StableSort(c[1..]));
    }
  }

  // The entries of one time, in their order.
  function OfTime(c: Cache, t: int): Cache {
    if c == [] then [] else (if c[0].updatedAt == t then [c[0]] else []) + OfTime(c[1..], t)
  }

  lemma {:induction false} InsertIsFirstOfItsTime(e: Entry, sorted: Cache, t: int)
    ensures OfTime(Insert(e, sorted), t) == (if e.updatedAt == t then [e] else []) + OfTime(sorted, t)
  {
    if sorted == [] || e.updatedAt <= sorted[0].updatedAt {
      assert ([e] + sorted)[1..] == sorted;
    } else {
      assert Insert(e, sorted)[0] == sorted[0] && Insert(e, sorted)[1..] == Insert(e, sorted[1..]);
      InsertIsFirstOfItsTime(e, sorted[1..], t);
      if e.updatedAt == t {
        assert OfTime(sorted, t) == [] + OfTime(sorted[1..], t) == OfTime(sorted[1..], t);
      } else {
        assert [] + OfTime(sorted[1..], t) == OfTime(sorted[1..], t) && [] + OfTime(sorted, t) == OfTime(sorted, t);
      }
    }
  }

  // Entries of the same time stay in the map's order.
  lemma {:induction false} SortIsStable(c: Cache, t: int)
    ensures OfTime(StableSort(c), t) == OfTime(c, t)
  {
    if c != [] {
      SortIsStable(c[1..], t);
      InsertIsFirstOfItsTime(c[0], StableSort(c[1..]), t);
    }
  }

  lemma {:induction false} InsertBeforeNewest(e: Entry, sorted: Cache, newest: Entry)
    requires e.updatedAt <= newest.updatedAt
    ensures Insert(e, sorted + [newest]) == Insert(e, sorted) + [newest]
  {
    if sorted != [] && e.updatedAt > sorted[0].updatedAt {
      assert (sorted + [newest])[1..] == sorted[1..] + [newest];
      InsertBeforeNewest(e, sorted[1..], newest);
    }
  }

  // The last of the newest entries stays last.
  lemma {:induction false} NewestLastStaysLast(c: Cache, newest: Entry)
    requires AllUpTo(c, newest.updatedAt)
    ensures StableSort(c + [newest]) == StableSort(c) + [newest]
  {
    if c == [] {
      assert [newest][1..] == [] && [] + [newest] == [newest];
    } else {
      assert (c + [newest])[1..] == c[1..] + [newest];
      assert c[0] in c;
      NewestLastStaysLast(c[1..], newest);
      InsertBeforeNewest(c[0], StableSort(c[1..]), newest);
    }
  }

  // ---------------------------------------------------------------- pruning

  function Fresh(c: Cache, cutoff: int): Cache {
    if c == [] then [] else (if c[0].updatedAt < cutoff then [] else [c[0]]) + Fresh(c[1..], cutoff)
  }

  lemma {:induction false} FreshAppend(c: Cache, e: Entry, cutoff: int)
    ensures Fresh(c + [e], cutoff) == Fresh(c, cutoff) + if e.updatedAt < cutoff then [] else [e]
  {
    if c == [] {
      assert [e][1..] == [] && [] + [e] == [e];
    } else {
      assert (c + [e])[0] == c[0] && (c + [e])[1..] == c[1..] + [e];
      FreshAppend(c[1..], e, cutoff);
      var head, rest := if c[0].updatedAt < cutoff then [] else [c[0]], Fresh(c[1..], cutoff);
      var last := if e.updatedAt < cutoff then [] else [e];
      assert Fresh(c, cutoff) == head + rest && head + (rest + last) == (head + rest) + last;
    }
  }

  lemma {:induction false} FreshFacts(c: Cache, cutoff: int)
    requires DistinctKeys(c)
    ensures forall x :: x in Fresh(c, cutoff) <==> x in c && x.updatedAt >= cutoff
    ensures DistinctKeys(Fresh(c, cutoff)) && |Fresh(c, cutoff)| <= |c|
  {
    if c != [] {
      var rest := Fresh(c[1..], cutoff);
      FreshFacts(c[1..], cutoff);
      assert Absent(rest, c[0].key);
      if c[0].updatedAt >= cutoff {
        assert Fresh(c, cutoff) == [c[0]] + rest && ([c[0]] + rest)[1..] == rest;
      } else {
        assert Fresh(c, cutoff) == rest;
      }
    }
  }

  // Deleting entries in the given order while there are too many.
  function Shrink(c: Cache, order: Cache): Cache
    decreases |order|
  {
    if order == [] || |c| <= MAX_ENTRIES then c else Shrink(Delete(c, order[0].key), order[1..])
  }

  function Pruned(c: Cache, now: int): Cache {
    var live := Fresh(c, now - MAX_AGE);
    Shrink(live, StableSort(live))
  }

  // The sort order still to be gone through lists exactly the entries still there.
  ghost predicate Pending(c: Cache, rest: Cache) {
    && DistinctKeys(c) && DistinctKeys(rest) && Ascending(rest) && |rest| == |c|
    && forall x :: x in rest <==> x in c
  }

  lemma DeleteOldest(c: Cache, rest: Cache)
    requires Pending(c, rest) && rest != []
    ensures Pending(Delete(c, rest[0].key), rest[1..])
    ensures |Delete(c, rest[0].key)| == |c| - 1
    ensures forall x :: x in Delete(c, rest[0].key) <==> x in c && x != rest[0]
  {
    var oldest := rest[0];
    assert oldest in c;
    DeleteShape(c, oldest.key);
    DeleteMembers(c, oldest.key);
    forall x | x in c && x.key == oldest.key ensures x == oldest {
      GetOfMember(c, x);
      GetOfMember(c, oldest);
    }
    assert forall x :: x in rest <==> x == oldest || x in rest[1..];
  }

  lemma {:induction false} ShrinkKeepsBounds(c: Cache, rest: Cache)
    requires Pending(c, rest)
    ensures var s := Shrink(c, rest);
            && DistinctKeys(s) && |s| == (if |c| <= MAX_ENTRIES then |c| else MAX_ENTRIES)
            && forall x :: x in s ==> x in c
    decreases |rest|
  {
    if rest != [] && |c| > MAX_ENTRIES {
      DeleteOldest(c, rest);
      ShrinkKeepsBounds(Delete(c, rest[0].key), rest[1..]);
    }
  }

  lemma {:induction false} ShrinkTakesOldest(c: Cache, rest: Cache, x: Entry, y: Entry)
    requires Pending(c, rest) && x in c && x !in Shrink(c, rest) && y in Shrink(c, rest)
    ensures x.updatedAt <= y.updatedAt
    decreases |rest|
  {
    if rest != [] && |c| > MAX_ENTRIES {
      DeleteOldest(c, rest);
      var c' := Delete(c, rest[0].key);
      if x in c' {
        ShrinkTakesOldest(c', rest[1..], x, y);
      } else {
        ShrinkKeepsBounds(c', rest[1..]);
        assert y in c' && y in rest[1..];
      }
    }
  }

  lemma ShrinkByOne(c: Cache, order: Cache, i: nat)
    requires i < |order|
    ensures Shrink(c, order[i..]) == if |c| <= MAX_ENTRIES then c else Shrink(Delete(c, order[i].key), order[i + 1..])
  {
    assert order[i..][0] == order[i] && order[i..][1..] == order[i + 1..];
  }

  lemma ShrinkIsOver(c: Cache, order: Cache)
    ensures order == [] || |c| <= MAX_ENTRIES ==> Shrink(c, order) == c
  {
  }

  lemma PendingLast(c: Cache, rest: Cache)
    requires Pending(c, rest) && rest != []
    ensures |rest| == |c| && rest[|rest| - 1] in c
    ensures |rest| > 1 ==> rest[1..][|rest[1..]| - 1] == rest[|rest| - 1]
  {
  }

  lemma {:induction false} ShrinkKeepsLast(c: Cache, rest: Cache)
    requires Pending(c, rest) && rest != []
    ensures rest[|rest| - 1] in Shrink(c, rest)
    decreases |rest|
  {
    hide Pending, Delete;
    PendingLast(c, rest);
    if |c| > MAX_ENTRIES {
      DeleteOldest(c, rest);
      ShrinkKeepsLast(Delete(c, rest[0].key), rest[1..]);
    }
  }

  // Pruning leaves at most the maximum, keeps only live entries, and everything live that had to go is
  // no newer than anything that stays.
  lemma PrunedFacts(c: Cache, now: int)
    requires DistinctKeys(c)
    ensures var s := Pruned(c, now);
            && DistinctKeys(s) && |s| <= MAX_ENTRIES
            && (forall x :: x in s ==> x in c && x.updatedAt >= now - MAX_AGE)
            && (forall x, y :: x in c && x.updatedAt >= now - MAX_AGE && x !in s && y in s ==> x.updatedAt <= y.updatedAt)
            && (|Fresh(c, now - MAX_AGE)| <= MAX_ENTRIES ==> s == Fresh(c, now - MAX_AGE))
  {
    var live := Fresh(c, now - MAX_AGE);
    FreshFacts(c, now - MAX_AGE);
    StableSortFacts(live);
    ShrinkKeepsBounds(live, StableSort(live));
    var s := Pruned(c, now);
    forall x, y | x in c && x.updatedAt >= now - MAX_AGE && x !in s && y in s ensures x.updatedAt <= y.updatedAt {
      ShrinkTakesOldest(live, StableSort(live), x, y);
    }
  }

  lemma SortedLastSurvives(live: Cache, older: Cache, newest: Entry)
    requires DistinctKeys(live) && live == older + [newest] && AllUpTo(older, newest.updatedAt)
    ensures newest in Shrink(live, StableSort(live))
  {
    NewestLastStaysLast(older, newest);
    StableSortFacts(live);
    ShrinkKeepsLast(live, StableSort(live));
  }

  // The newest entry survives if it was appended last.
  lemma AppendedNewestSurvives(c: Cache, newest: Entry, now: int)
    requires DistinctKeys(c + [newest]) && AllUpTo(c, newest.updatedAt) && newest.updatedAt >= now - MAX_AGE
    requires DistinctKeys(c)
    ensures newest in Pruned(c + [newest], now)
  {
    var older := Fresh(c, now - MAX_AGE);
    assert AllUpTo(older, newest.updatedAt) by {
      FreshFacts(c, now - MAX_AGE);
    }
    var live := Fresh(c + [newest], now - MAX_AGE);
    assert DistinctKeys(live) by {
      FreshFacts(c + [newest], now - MAX_AGE);
    }
    assert live == older + [newest] by {
      FreshAppend(c, newest, now - MAX_AGE);
    }
    SortedLastSurvives(live, older, newest);
  }

  // ---------------------------------------------------------------- the plugin's functions

  function Remembered(c: Cache, ctx: Option<Context>, now: int): Entry {
    var key := StateKey(ctx);
    var known := Get(c, key);
    Entry(key,
          Coalesce(if ctx.Some? then ctx.value.agentId else None, if known.Some? then known.value.agentId else None),
          Coalesce(if ctx.Some? then ctx.value.sessionId else None, if known.Some? then known.value.sessionId else None),
          if known.Some? then known.value.lastTabId else None,
          now)
  }

  function Remember(c: Cache, ctx: Option<Context>, now: int, pruneAt: int): Cache {
    Pruned(Set(c, Remembered(c, ctx, now)), pruneAt)
  }

  class AgentSessions {
    var cache: Cache
    ghost var clock: int

    ghost predicate Valid()
      reads this
    {
      DistinctKeys(cache) && |cache| <= MAX_ENTRIES && AllUpTo(cache, clock)
    }

    constructor ()
      ensures Valid() && cache == []
    {
      cache, clock := [], 0;
    }

    method Prune(now: int)
      modifies this`cache
      ensures cache == Pruned(old(cache), now)
    {
      hide Shrink, Delete, StableSort;
      var cutoff := now - MAX_AGE;
      var live: Cache := [];
      for i := 0 to |cache|
        invariant cache == old(cache)
        invariant live == Fresh(cache[..i], cutoff)
      {
        assert cache[..i + 1] == cache[..i] + [cache[i]];
        FreshAppend(cache[..i], cache[i], cutoff);
        if !(cache[i].updatedAt < cutoff) {
          live := live + [cache[i]];
        }
      }
      assert cache[..|cache|] == cache;
      cache := live;
      ShrinkIsOver(live, StableSort(live));
      if |cache| <= MAX_ENTRIES {
        return;
      }
      var ordered := StableSort(cache);
      var i := 0;
      assert ordered[0..] == ordered;
      while i < |ordered|
        invariant 0 <= i <= |ordered|
        invariant Shrink(live, ordered) == Shrink(cache, ordered[i..])
      {
        ShrinkByOne(cache, ordered, i);
        if |cache| <= MAX_ENTRIES {
          break;
        }
        cache := Delete(cache, ordered[i].key);
        i := i + 1;
      }
      ShrinkIsOver(cache, ordered[i..]);
    }

    // The entry just remembered is there afterwards exactly if the clock did not jump by more than the
    // maximal age between the two readings.
    method RememberRuntimeContext(ctx: Option<Context>, now: int, pruneAt: int) returns (next: Entry)
      requires Valid() && clock <= now <= pruneAt
      modifies this
      ensures Valid() && clock == pruneAt
      ensures next == Remembered(old(cache), ctx, now) && cache == Remember(old(cache), ctx, now, pruneAt)
      ensures Get(cache, StateKey(ctx)) == if pruneAt - now <= MAX_AGE then Some(next) else None
    {
      RememberFacts(cache, clock, ctx, now, pruneAt);
      var key := StateKey(ctx);
      var existing := Get(cache, key);
      next := Entry(key,
                    Coalesce(if ctx.Some? then ctx.value.agentId else None, if existing.Some? then existing.value.agentId else None),
                    Coalesce(if ctx.Some? then ctx.value.sessionId else None, if existing.Some? then existing.value.sessionId else None),
                    if existing.Some? then existing.value.lastTabId else None,
                    now);
      cache := Set(cache, next);
      Prune(pruneAt);
      clock := pruneAt;
    }

    method GetLastTabId(ctx: Option<Context>) returns (tabId: Option<string>)
      ensures tabId == if Get(cache, StateKey(ctx)).Some? then Get(cache, StateKey(ctx)).value.lastTabId else None
    {
      var state := Get(cache, StateKey(ctx));
      if state.None? {
        return None;
      }
      return state.value.lastTabId;
    }

    // The entry is updated where it is; if pruning has already removed it, the update is lost with it.
    method SetLastTabId(tabId: Option<string>, ctx: Option<Context>, now: int, pruneAt: int, setAt: int)
      requires Valid() && clock <= now <= pruneAt <= setAt
      modifies this
      ensures Valid() && clock == setAt
      ensures pruneAt - now <= MAX_AGE ==>
                && Get(cache, StateKey(ctx)).Some?
                && Get(cache, StateKey(ctx)).value.lastTabId == tabId
                && Get(cache, StateKey(ctx)).value.updatedAt == setAt
      ensures pruneAt - now > MAX_AGE ==> Get(cache, StateKey(ctx)).None?
      ensures cache == TabSet(old(cache), tabId, ctx, now, pruneAt, setAt)
    {
      var state := RememberRuntimeContext(ctx, now, pruneAt);
      if Get(cache, state.key).Some? {
        var updated := state.(lastTabId := tabId, updatedAt := setAt);
        SetMembers(cache, updated);
        SetShape(cache, updated);
        GetFacts(cache, state.key);
        cache := Set(cache, updated);
      }
      clock := setAt;
    }

    // What was set is what is read back for the same context.
    method SetThenGet(tabId: Option<string>, ctx: Option<Context>, now: int, pruneAt: int, setAt: int) returns (read: Option<string>)
      requires Valid() && clock <= now <= pruneAt <= setAt && pruneAt - now <= MAX_AGE
      modifies this
      ensures Valid() && read == tabId
    {
      SetLastTabId(tabId, ctx, now, pruneAt, setAt);
      read := GetLastTabId(ctx);
    }
  }

  // What one call of rememberRuntimeContext leaves, on a cache within bounds and a clock that does not
  // run backwards.
  lemma RememberFacts(c: Cache, clock: int, ctx: Option<Context>, now: int, pruneAt: int)
    requires DistinctKeys(c) && |c| <= MAX_ENTRIES && AllUpTo(c, clock) && clock <= now <= pruneAt
    ensures var s := Remember(c, ctx, now, pruneAt);
            var next := Remembered(c, ctx, now);
            && DistinctKeys(s) && |s| <= MAX_ENTRIES && AllUpTo(s, pruneAt)
            && Get(s, StateKey(ctx)) == (if pruneAt - now <= MAX_AGE then Some(next) else None)
            && (forall x, y :: x in c && x.key != next.key && x.updatedAt >= pruneAt - MAX_AGE && x !in s && y in s
                  ==> x.updatedAt <= y.updatedAt)
  {
    var next := Remembered(c, ctx, now);
    var all := Set(c, next);
    var s := Pruned(all, pruneAt);
    SetMembers(c, next);
    SetShape(c, next);
    PrunedFacts(all, pruneAt);
    FreshFacts(all, pruneAt - MAX_AGE);
    GetFacts(s, next.key);
    if pruneAt - now <= MAX_AGE {
      if Absent(c, next.key) {
        AppendedNewestSurvives(c, next, pruneAt);
      }
      assert next in s;
      GetOfMember(s, next);
    }
  }

  // ---------------------------------------------------------------- what is read back, over whole runs

  // The cache after setLastTabId.
  function TabSet(c: Cache, tabId: Option<string>, ctx: Option<Context>, now: int, pruneAt: int, setAt: int): Cache {
    var s := Remember(c, ctx, now, pruneAt);
    if Get(s, StateKey(ctx)).None? then s
    else Set(s, Remembered(c, ctx, now).(lastTabId := tabId, updatedAt := setAt))
  }

  // Contexts of one agent share an entry, and so do those of one session that name no agent, and those that
  // name neither; an empty name is none.
  lemma KeyMeaning(ctx: Option<Context>)
    ensures var agent := if ctx.Some? && ctx.value.agentId.Some? then ctx.value.agentId.value else "";
            var session := if ctx.Some? && ctx.value.sessionId.Some? then ctx.value.sessionId.value else "";
            && (agent != "" ==> StateKey(ctx) == agent)
            && (agent == "" && session != "" ==> StateKey(ctx) == session)
            && (agent == "" && session == "" ==> StateKey(ctx) == "global")
  {
  }

  datatype Call =
    | RememberCall(ctx: Option<Context>, now: int, pruneAt: int)
    | SetCall(tabId: Option<string>, ctx: Option<Context>, now: int, pruneAt: int, setAt: int)

  function AfterCall(c: Cache, k: Call): Cache {
    match k
    case RememberCall(ctx, now, pruneAt) => Remember(c, ctx, now, pruneAt)
    case SetCall(tabId, ctx, now, pruneAt, setAt) => TabSet(c, tabId, ctx, now, pruneAt, setAt)
  }

  function AfterCalls(calls: seq<Call>): Cache
    decreases |calls|
  {
    if calls == [] then [] else AfterCall(AfterCalls(calls[..|calls| - 1]), calls[|calls| - 1])
  }

  // The tab last set for this key, as long as the entry has been there since.
  function LastSet(calls: seq<Call>, key: string): Option<string>
    decreases |calls|
  {
    if calls == [] || Get(AfterCalls(calls), key).None? then None
    else
      var last := calls[|calls| - 1];
      if last.SetCall? && StateKey(last.ctx) == key then last.tabId else LastSet(calls[..|calls| - 1], key)
  }

  lemma SetOthers(c: Cache, e: Entry, key: string)
    requires DistinctKeys(c) && key != e.key
    ensures Get(Set(c, e), key) == Get(c, key)
  {
    SetMembers(c, e);
    SetKeepsDistinct(c, e);
    GetFacts(c, key);
    GetFacts(Set(c, e), key);
    if Get(c, key).Some? {
      GetOfMember(Set(c, e), Get(c, key).value);
    }
  }

  // Pruning takes entries out and leaves the others as they are.
  lemma PruneLeaves(c: Cache, key: string, now: int)
    requires DistinctKeys(c)
    ensures DistinctKeys(Pruned(c, now))
    ensures Get(Pruned(c, now), key).Some? ==> Get(Pruned(c, now), key) == Get(c, key)
  {
    PrunedFacts(c, now);
    GetFacts(Pruned(c, now), key);
    if Get(Pruned(c, now), key).Some? {
      GetOfMember(c, Get(Pruned(c, now), key).value);
    }
  }

  // Remembering keeps what an entry has, and the tab of an entry it makes is not set.
  lemma RememberKeepsTab(c: Cache, ctx: Option<Context>, now: int, pruneAt: int, key: string)
    requires DistinctKeys(c)
    ensures var s := Remember(c, ctx, now, pruneAt);
            && DistinctKeys(s)
            && (Get(s, key).Some? ==>
                  Get(s, key).value.lastTabId == if Get(c, key).Some? then Get(c, key).value.lastTabId else None)
  {
    var next := Remembered(c, ctx, now);
    SetKeepsDistinct(c, next);
    PruneLeaves(Set(c, next), key, pruneAt);
    SetMembers(c, next);
    GetFacts(c, key);
    if key != next.key {
      SetOthers(c, next, key);
      if Get(c, key).None? {
        assert Get(Set(c, next), key).None?;
      }
    }
  }

  lemma {:induction false} KeysStayDistinct(calls: seq<Call>)
    ensures DistinctKeys(AfterCalls(calls))
    decreases |calls|
  {
    hide Remember, DistinctKeys;
    if calls == [] {
      NothingIsDistinct();
    } else {
      var k := calls[|calls| - 1];
      var before := AfterCalls(calls[..|calls| - 1]);
      KeysStayDistinct(calls[..|calls| - 1]);
      RememberKeepsTab(before, k.ctx, k.now, k.pruneAt, "");
      if k.SetCall? {
        SetKeepsDistinct(Remember(before, k.ctx, k.now, k.pruneAt), Remembered(before, k.ctx, k.now).(lastTabId := k.tabId, updatedAt := k.setAt));
      }
    }
  }

  lemma NothingIsDistinct()
    ensures DistinctKeys([])
  {
  }

  // Over any calls, whatever the clock does: the tab read for a context is the one last set for its agent, or
  // session, while the entry has been in the cache; nothing set for another is ever read.
  lemma {:induction false} ReadsAreLastSet(calls: seq<Call>, key: string)
    ensures var entry := Get(AfterCalls(calls), key);
            (if entry.Some? then entry.value.lastTabId else None) == LastSet(calls, key)
    decreases |calls|
  {
    hide Remember, DistinctKeys, Set, Pruned;
    if calls != [] {
      var front, k := calls[..|calls| - 1], calls[|calls| - 1];
      var before := AfterCalls(front);
      ReadsAreLastSet(front, key);
      KeysStayDistinct(front);
      RememberKeepsTab(before, k.ctx, k.now, k.pruneAt, key);
      if k.SetCall? {
        var s, e := Remember(before, k.ctx, k.now, k.pruneAt), Remembered(before, k.ctx, k.now).(lastTabId := k.tabId, updatedAt := k.setAt);
        SetMembers(s, e);
        if StateKey(k.ctx) != key {
          SetOthers(s, e, key);
        }
      }
    }
  }

  // The names last given for this key, and when it was last used, as long as the entry has been there since.
  datatype Facts = Facts(agentId: Option<string>, sessionId: Option<string>, updatedAt: int)

  function LastFacts(calls: seq<Call>, key: string): Option<Facts>
    decreases |calls|
  {
    if calls == [] || Get(AfterCalls(calls), key).None? then None
    else
      var last, before := calls[|calls| - 1], LastFacts(calls[..|calls| - 1], key);
      if StateKey(last.ctx) != key then before
      else
        var agent := if last.ctx.Some? && last.ctx.value.agentId.Some? then last.ctx.value.agentId
                     else if before.Some? then before.value.agentId else None;
        var session := if last.ctx.Some? && last.ctx.value.sessionId.Some? then last.ctx.value.sessionId
                       else if before.Some? then before.value.sessionId else None;
        Some(Facts(agent, session, if last.SetCall? then last.setAt else last.now))
  }

  function FactsOf(e: Option<Entry>): Option<Facts> {
    if e.None? then None else Some(Facts(e.value.agentId, e.value.sessionId, e.value.updatedAt))
  }

  // Of another key, remembering keeps the entry; of its own, it leaves the one just remembered.
  lemma RememberLeaves(c: Cache, ctx: Option<Context>, now: int, pruneAt: int, key: string)
    requires DistinctKeys(c)
    ensures var entry := Get(Remember(c, ctx, now, pruneAt), key);
            entry.Some? ==> entry == if StateKey(ctx) == key then Some(Remembered(c, ctx, now)) else Get(c, key)
  {
    var next := Remembered(c, ctx, now);
    SetKeepsDistinct(c, next);
    PruneLeaves(Set(c, next), key, pruneAt);
    SetMembers(c, next);
    if key != next.key {
      SetOthers(c, next, key);
    }
  }

  // Over any calls, whatever the clock does, an entry has the agent and session last named for it and the time
  // of its last use.
  lemma {:induction false} EntriesAreFactual(calls: seq<Call>, key: string)
    ensures FactsOf(Get(AfterCalls(calls), key)) == LastFacts(calls, key)
    decreases |calls|
  {
    hide Remember, DistinctKeys, Set, Pruned, StateKey;
    if calls != [] {
      var front, k := calls[..|calls| - 1], calls[|calls| - 1];
      var before := AfterCalls(front);
      EntriesAreFactual(front, key);
      KeysStayDistinct(front);
      RememberLeaves(before, k.ctx, k.now, k.pruneAt, key);
      if k.SetCall? {
        RememberKeepsTab(before, k.ctx, k.now, k.pruneAt, key);
        var s, e := Remember(before, k.ctx, k.now, k.pruneAt), Remembered(before, k.ctx, k.now).(lastTabId := k.tabId, updatedAt := k.setAt);
        SetMembers(s, e);
        if StateKey(k.ctx) != key {
          SetOthers(s, e, key);
        }
      }
    }
  }
}

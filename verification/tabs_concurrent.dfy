// Overlapping calls that open tabs: CreateTab and the enforcing adoption of internal/bridge count the tabs,
// choose one to evict, close it and enter the new one in separate locked sections, between which other
// calls run. What Chrome answers decides which step comes next.

module TabConcurrency {
  import opened TabManagement

  // How far a call that enforces the limit has come: it found the table full, has chosen whom to evict, has
  // looked that tab up for closing, or may enter its new tab.
  datatype Phase = Full | Chosen(victim: string) | Closing(victim: string, tracked: bool) | Admitted

  // The calls in flight; how often a call chose the same tab to evict as another one in flight; and how many
  // tabs were entered without regard to the limit.
  datatype State = State(v: Tabs, calls: map<nat, Phase>, shared: nat, unlimited: nat)

  // `Close` and `Use` stand for all other operations on a tab, `Place` for RegisterTab and for an adoption
  // that does not enforce the limit. `other` is the tab that a cleanup finds by its target if the victim
  // itself is no longer tracked.
  datatype Step =
    | Check(c: nat)
    | Choose(c: nat, victim: string)
    | LookUp(c: nat)
    | Purge(c: nat, closes: bool, other: string)
    | Enter(c: nat, id: string, now: int)
    | GiveUp(c: nat)
    | Close(id: string)
    | Use(id: string, now: int)
    | Place(id: string, cdpId: string, now: int)

  predicate Possible(s: State, a: Step, policy: Policy) {
    match a
    case Check(c) => c !in s.calls
    case Choose(c, victim) => c in s.calls && s.calls[c].Full? && Evictable(s.v, policy, victim)
    case LookUp(c) => c in s.calls && s.calls[c].Chosen?
    case Purge(c, _, other) => c in s.calls && s.calls[c].Closing? && (other == "" || Resolves(s.v, s.calls[c].victim, s.calls[c].victim, other))
    case Enter(c, id, _) => c in s.calls && s.calls[c].Admitted? && id != ""
    case GiveUp(c) => c in s.calls && !s.calls[c].Closing? && (s.calls[c].Full? ==> s.v.tabs == map[])
    case _ => true
  }

  function Take(s: State, a: Step, max: int, policy: Policy): State
    requires Possible(s, a, policy)
  {
    match a
    case Check(c) =>
      if |s.v.tabs| < max then s.(calls := s.calls[c := Admitted])
      else if policy == Reject then s
      else s.(calls := s.calls[c := Full])
    case Choose(c, victim) =>
      s.(calls := s.calls[c := Chosen(victim)], shared := s.shared + if victim in Victims(s) then 1 else 0)
    case LookUp(c) => s.(calls := s.calls[c := Closing(s.calls[c].victim, s.calls[c].victim in s.v.tabs)])
    case Purge(c, closes, other) =>
      var victim := s.calls[c].victim;
      if !s.calls[c].tracked && !closes then s.(calls := s.calls - {c})
      else s.(v := if victim in s.v.tabs then Drop(s.v, victim) else if other == "" then s.v else Drop(s.v, other),
              calls := s.calls[c := Admitted])
    case Enter(c, id, now) => s.(v := Track(s.v, id, id, now), calls := s.calls - {c})
    case GiveUp(c) => s.(calls := s.calls - {c})
    case Close(id) => s.(v := Drop(s.v, id))
    case Use(id, now) => s.(v := Touch(s.v, id, now))
    case Place(id, cdpId, now) =>
      s.(v := s.v.(tabs := s.v.tabs[id := Tab(true, cdpId, now, now)], current := id),
         unlimited := s.unlimited + if id in s.v.tabs then 0 else 1)
  }

  // The steps are possible one after the other, lead to `end`, and never are more than `most` calls in flight.
  ghost predicate Reaches(s: State, steps: seq<Step>, end: State, max: int, policy: Policy, most: nat)
    decreases |steps|
  {
    && |s.calls| <= most
    && if steps == [] then end == s
       else Possible(s, steps[0], policy) && Reaches(Take(s, steps[0], max, policy), steps[1..], end, max, policy, most)
  }

  // ---------------------------------------------------------------- how far past the limit

  // Calls that have chosen or closed their victim, or need none.
  function Busy(s: State): set<nat> {
    set c | c in s.calls && !s.calls[c].Full?
  }

  function Waiting(s: State): set<nat> {
    set c | c in s.calls && (s.calls[c].Chosen? || s.calls[c].Closing?)
  }

  function Entering(s: State): set<nat> {
    set c | c in s.calls && s.calls[c].Admitted?
  }

  // The tabs chosen to be evicted by a call in flight.
  function Victims(s: State): set<string> {
    set c | c in Waiting(s) :: s.calls[c].victim
  }

  function Spare(s: State): set<string> {
    s.v.tabs.Keys - Victims(s)
  }

  lemma SubsetIsSmaller<T>(a: set<T>, b: set<T>)
    requires a <= b
    ensures |a| <= |b|
  {
    assert b == a + (b - a);
  }

  lemma OneMore<T>(a: set<T>, b: set<T>, x: T)
    requires a <= b + {x}
    ensures |a| <= |b| + 1
  {
    SubsetIsSmaller(a, b + {x});
  }

  lemma {:induction false} ImageIsSmaller(cs: set<nat>, calls: map<nat, Phase>)
    requires forall c :: c in cs ==> c in calls && (calls[c].Chosen? || calls[c].Closing?)
    ensures |set c | c in cs :: calls[c].victim| <= |cs|
    decreases cs
  {
    if cs != {} {
      var c0 :| c0 in cs;
      ImageIsSmaller(cs - {c0}, calls);
      OneMore(set c | c in cs :: calls[c].victim, set c | c in cs - {c0} :: calls[c].victim, calls[c0].victim);
    }
  }

  // A tab counts as spare, or some call in flight is going to close it.
  lemma TabsAndEntering(s: State)
    ensures |s.v.tabs| + |Entering(s)| <= |Spare(s)| + |Busy(s)|
  {
    ImageIsSmaller(Waiting(s), s.calls);
    assert Busy(s) == Waiting(s) + Entering(s);
    assert s.v.tabs.Keys <= Spare(s) + Victims(s);
    SubsetIsSmaller(s.v.tabs.Keys, Spare(s) + Victims(s));
  }

  ghost predicate Within(s: State, bound: int) {
    |Spare(s)| + |Busy(s)| <= bound + s.shared + s.unlimited
  }

  // What becomes of the busy calls and the victims when calls stay as they are, move on or leave.
  lemma CallsStay(s: State, t: State)
    requires t.calls == s.calls
    ensures Busy(t) == Busy(s) && Victims(t) == Victims(s)
  {
    assert Waiting(t) == Waiting(s);
  }

  lemma CallStarts(s: State, t: State, c: nat, p: Phase)
    requires c !in s.calls && (p.Full? || p.Admitted?) && t.calls == s.calls[c := p]
    ensures Busy(t) == Busy(s) + (if p.Full? then {} else {c}) && Victims(t) == Victims(s)
    ensures Busy(t) <= t.calls.Keys
  {
    assert Waiting(t) == Waiting(s);
  }

  lemma CallChooses(s: State, t: State, c: nat, victim: string)
    requires c in s.calls && s.calls[c].Full? && t.calls == s.calls[c := Chosen(victim)]
    ensures Busy(t) == Busy(s) + {c} && Victims(t) == Victims(s) + {victim}
  {
    assert Waiting(t) == Waiting(s) + {c};
    assert t.calls[c].victim == victim;
  }

  lemma CallLooksUp(s: State, t: State, c: nat, tracked: bool)
    requires c in s.calls && s.calls[c].Chosen? && t.calls == s.calls[c := Closing(s.calls[c].victim, tracked)]
    ensures Busy(t) == Busy(s) && Victims(t) == Victims(s)
  {
    assert Waiting(t) == Waiting(s);
    assert forall x :: x in Waiting(s) ==> t.calls[x].victim == s.calls[x].victim;
  }

  // The call has no victim any more.
  lemma CallIsAdmitted(s: State, t: State, c: nat)
    requires c in s.calls && s.calls[c].Closing? && t.calls == s.calls[c := Admitted]
    ensures Busy(t) == Busy(s) && Victims(s) - {s.calls[c].victim} <= Victims(t)
  {
    assert forall x :: x in Waiting(s) && x != c ==> x in Waiting(t) && t.calls[x] == s.calls[x];
  }

  lemma CallLeaves(s: State, t: State, c: nat)
    requires c in s.calls && !s.calls[c].Full? && t.calls == s.calls - {c}
    ensures c in Busy(s) && Busy(t) == Busy(s) - {c}
    ensures Victims(s) - (if s.calls[c].Admitted? then {} else {s.calls[c].victim}) <= Victims(t)
  {
    assert forall x :: x in Waiting(s) && x != c ==> x in Waiting(t) && t.calls[x] == s.calls[x];
  }

  lemma FullCallLeaves(s: State, t: State, c: nat)
    requires c in s.calls && s.calls[c].Full? && t.calls == s.calls - {c}
    ensures Busy(t) == Busy(s) && Victims(t) == Victims(s)
  {
    assert Waiting(t) == Waiting(s);
  }

  lemma PurgeKeepsBound(s: State, a: Step, max: int, policy: Policy, bound: int)
    requires a.Purge? && Possible(s, a, policy) && Within(s, bound)
    ensures Within(Take(s, a, max, policy), bound)
  {
    hide Busy, Victims, Waiting, Resolves;
    var t := Take(s, a, max, policy);
    var victim := s.calls[a.c].victim;
    if !s.calls[a.c].tracked && !a.closes {
      CallLeaves(s, t, a.c);
      OneMore(Spare(t), Spare(s), victim);
    } else {
      CallIsAdmitted(s, t, a.c);
      SubsetIsSmaller(Spare(t), Spare(s));
    }
  }

  lemma ChoiceKeepsBound(s: State, c: nat, victim: string, max: int, policy: Policy, bound: int)
    requires Possible(s, Choose(c, victim), policy) && Within(s, bound)
    ensures Within(Take(s, Choose(c, victim), max, policy), bound)
  {
    var t := Take(s, Choose(c, victim), max, policy);
    CallChooses(s, t, c, victim);
    OneMore(Busy(t), Busy(s), c);
    assert victim in s.v.tabs && t.v == s.v;
    hide Busy, Victims, Take, Possible, Evictable;
    if victim in Victims(s) {
      assert Spare(t) == Spare(s);
    } else {
      assert Spare(t) == Spare(s) - {victim};
    }
  }

  lemma LookUpKeepsBound(s: State, c: nat, max: int, policy: Policy, bound: int)
    requires Possible(s, LookUp(c), policy) && Within(s, bound)
    ensures Within(Take(s, LookUp(c), max, policy), bound)
  {
    CallLooksUp(s, Take(s, LookUp(c), max, policy), c, s.calls[c].victim in s.v.tabs);
    hide Busy, Victims;
  }

  lemma EndKeepsBound(s: State, a: Step, max: int, policy: Policy, bound: int)
    requires (a.Enter? || a.GiveUp?) && Possible(s, a, policy) && Within(s, bound)
    ensures Within(Take(s, a, max, policy), bound)
  {
    var t := Take(s, a, max, policy);
    assert a.Enter? ==> t.v.tabs.Keys == s.v.tabs.Keys + {a.id};
    assert a.GiveUp? ==> t.v == s.v;
    assert t.calls == s.calls - {a.c} && t.shared == s.shared && t.unlimited == s.unlimited;
    assert a.Enter? ==> s.calls[a.c].Admitted?;
    assert a.GiveUp? ==> !s.calls[a.c].Closing?;
    hide Busy, Victims, Waiting, Evictable, Take, Track;
    if s.calls[a.c].Full? {
      FullCallLeaves(s, t, a.c);
    } else {
      CallLeaves(s, t, a.c);
      if s.calls[a.c].Chosen? {
        OneMore(Spare(t), Spare(s), s.calls[a.c].victim);
      } else if a.Enter? {
        OneMore(Spare(t), Spare(s), a.id);
      } else {
        SubsetIsSmaller(Spare(t), Spare(s));
      }
    }
  }

  lemma OtherStepTabs(s: State, a: Step, max: int, policy: Policy)
    requires (a.Close? || a.Use? || a.Place?) && Possible(s, a, policy)
    ensures var t := Take(s, a, max, policy);
            && t.v.tabs.Keys <= s.v.tabs.Keys + (if a.Place? then {a.id} else {})
            && t.calls == s.calls && t.shared == s.shared
            && t.unlimited == s.unlimited + if a.Place? && a.id !in s.v.tabs then 1 else 0
  {
  }

  lemma OtherStepKeepsBound(s: State, a: Step, max: int, policy: Policy, bound: int)
    requires (a.Close? || a.Use? || a.Place?) && Possible(s, a, policy) && Within(s, bound)
    ensures Within(Take(s, a, max, policy), bound)
  {
    hide Busy, Victims, Take, Possible;
    var t := Take(s, a, max, policy);
    OtherStepTabs(s, a, max, policy);
    CallsStay(s, t);
    if a.Place? && a.id !in s.v.tabs {
      OneMore(Spare(t), Spare(s), a.id);
    } else {
      SubsetIsSmaller(Spare(t), Spare(s));
    }
  }

  // Only the check looks at the limit.
  lemma CheckKeepsBound(s: State, c: nat, max: int, policy: Policy, bound: int, most: nat)
    requires Possible(s, Check(c), policy) && Within(s, bound) && max - 1 + most <= bound
    requires |Take(s, Check(c), max, policy).calls| <= most
    ensures Within(Take(s, Check(c), max, policy), bound)
  {
    var t := Take(s, Check(c), max, policy);
    hide Busy, Victims, Waiting;
    if |s.v.tabs| < max {
      CallStarts(s, t, c, Admitted);
      SubsetIsSmaller(Spare(t), s.v.tabs.Keys);
      SubsetIsSmaller(Busy(t), t.calls.Keys);
    } else if policy != Reject {
      CallStarts(s, t, c, Full);
    }
  }

  lemma {:induction false} RunKeepsBound(s: State, steps: seq<Step>, end: State, max: int, policy: Policy, most: nat, bound: int)
    requires Reaches(s, steps, end, max, policy, most) && Within(s, bound) && max - 1 + most <= bound
    ensures Within(end, bound)
    decreases |steps|
  {
    if steps != [] {
      var t := Take(s, steps[0], max, policy);
      match steps[0] {
        case Check(c) => CheckKeepsBound(s, c, max, policy, bound, most);
        case Purge(_, _, _) => PurgeKeepsBound(s, steps[0], max, policy, bound);
        case Close(_) => OtherStepKeepsBound(s, steps[0], max, policy, bound);
        case Use(_, _) => OtherStepKeepsBound(s, steps[0], max, policy, bound);
        case Place(_, _, _) => OtherStepKeepsBound(s, steps[0], max, policy, bound);
        case Choose(c, victim) => ChoiceKeepsBound(s, c, victim, max, policy, bound);
        case LookUp(c) => LookUpKeepsBound(s, c, max, policy, bound);
        case _ => EndKeepsBound(s, steps[0], max, policy, bound);
      }
      RunKeepsBound(t, steps[1..], end, max, policy, most, bound);
    }
  }

  function Larger(a: int, b: int): int {
    if a >= b then a else b
  }

  // The number of tabs, those about to be entered included, exceeds the limit (or the number there was) by
  // less than the calls in flight at once, plus one for every tab entered without regard to the limit and
  // every time two calls in flight chose the same tab to evict.
  lemma OverlapIsBounded(v: Tabs, steps: seq<Step>, end: State, max: int, policy: Policy, most: nat)
    requires Reaches(State(v, map[], 0, 0), steps, end, max, policy, most)
    ensures |end.v.tabs| + |Entering(end)| <= Larger(|v.tabs|, max - 1 + most) + end.unlimited + end.shared
  {
    var start := State(v, map[], 0, 0);
    SubsetIsSmaller(Spare(start), v.tabs.Keys);
    assert Busy(start) == {};
    RunKeepsBound(start, steps, end, max, policy, most, Larger(|v.tabs|, max - 1 + most));
    TabsAndEntering(end);
  }

  // One call at a time never shares a victim, whatever is closed in between.
  lemma {:induction false} LoneCallsShareNothing(s: State, steps: seq<Step>, end: State, max: int, policy: Policy)
    requires Reaches(s, steps, end, max, policy, 1)
    ensures end.shared == s.shared
    decreases |steps|
  {
    if steps != [] {
      if steps[0].Choose? {
        assert Waiting(s) == {} by {
          if x :| x in Waiting(s) {
            SubsetIsSmaller({x, steps[0].c}, s.calls.Keys);
          }
        }
      }
      LoneCallsShareNothing(Take(s, steps[0], max, policy), steps[1..], end, max, policy);
    }
  }

  // So for them the limit holds but for the tabs entered without regard to it.
  lemma OneAtATimeKeepsTheLimit(v: Tabs, steps: seq<Step>, end: State, max: int, policy: Policy)
    requires Reaches(State(v, map[], 0, 0), steps, end, max, policy, 1)
    ensures |end.v.tabs| + |Entering(end)| <= Larger(|v.tabs|, max) + end.unlimited
  {
    LoneCallsShareNothing(State(v, map[], 0, 0), steps, end, max, policy);
    OverlapIsBounded(v, steps, end, max, policy, 1);
  }

  // ---------------------------------------------------------------- the bound is reached, and shared victims add up

  lemma Before(s: State, a: Step, steps: seq<Step>, end: State, max: int, policy: Policy, most: nat)
    requires |s.calls| <= most && Possible(s, a, policy) && Reaches(Take(s, a, max, policy), steps, end, max, policy, most)
    ensures Reaches(s, [a] + steps, end, max, policy, most)
  {
    assert ([a] + steps)[1..] == steps;
  }

  lemma {:induction false} Join(s: State, first: seq<Step>, t: State, second: seq<Step>, end: State, max: int, policy: Policy, most: nat)
    requires Reaches(s, first, t, max, policy, most) && Reaches(t, second, end, max, policy, most)
    ensures Reaches(s, first + second, end, max, policy, most)
    decreases |first|
  {
    if first == [] {
      assert first + second == second;
    } else {
      assert (first + second)[1..] == first[1..] + second;
      Join(Take(s, first[0], max, policy), first[1..], t, second, end, max, policy, most);
    }
  }

  // The calls numbered below n are admitted.
  function AdmittedBelow(n: nat): (calls: map<nat, Phase>)
    ensures |calls| == n && forall c: nat :: c in calls <==> c < n
    ensures forall c :: c in calls ==> calls[c] == Admitted
  {
    if n == 0 then map[]
    else
      assert AdmittedBelow(n - 1)[n - 1 := Admitted].Keys == AdmittedBelow(n - 1).Keys + {n - 1};
      AdmittedBelow(n - 1)[n - 1 := Admitted]
  }

  lemma {:induction false} AllAreAdmitted(v: Tabs, k: nat, n: nat, max: int, policy: Policy) returns (steps: seq<Step>)
    requires |v.tabs| < max && k <= n
    ensures Reaches(State(v, AdmittedBelow(k), 0, 0), steps, State(v, AdmittedBelow(n), 0, 0), max, policy, n)
    decreases n - k
  {
    if k == n {
      steps := [];
    } else {
      var rest := AllAreAdmitted(v, k + 1, n, max, policy);
      var s := State(v, AdmittedBelow(k), 0, 0);
      assert Take(s, Check(k), max, policy) == State(v, AdmittedBelow(k + 1), 0, 0);
      Before(s, Check(k), rest, State(v, AdmittedBelow(n), 0, 0), max, policy, n);
      steps := [Check(k)] + rest;
    }
  }

  lemma TrackAddsOne(v: Tabs, id: string)
    requires id !in v.tabs
    ensures |Track(v, id, id, 0).tabs| == |v.tabs| + 1
  {
    assert Track(v, id, id, 0).tabs.Keys == v.tabs.Keys + {id};
  }

  lemma LastEnters(v: Tabs, k: nat, id: string, max: int, policy: Policy)
    requires k > 0 && id != ""
    ensures var s := State(v, AdmittedBelow(k), 0, 0);
            && Possible(s, Enter(k - 1, id, 0), policy)
            && Take(s, Enter(k - 1, id, 0), max, policy) == State(Track(v, id, id, 0), AdmittedBelow(k - 1), 0, 0)
  {
    hide Track;
    assert AdmittedBelow(k) - {k - 1} == AdmittedBelow(k - 1);
  }

  lemma {:induction false} AllEnter(v: Tabs, k: nat, n: nat, max: int, policy: Policy) returns (steps: seq<Step>, w: Tabs)
    requires k <= n
    ensures Reaches(State(v, AdmittedBelow(k), 0, 0), steps, State(w, map[], 0, 0), max, policy, n)
    ensures |w.tabs| == |v.tabs| + k
    decreases k
  {
    hide Reaches, Track, Take, Possible;
    var s := State(v, AdmittedBelow(k), 0, 0);
    if k == 0 {
      NoStep(s, max, policy, n);
      steps, w := [], v;
    } else {
      var longest := LongerThanAll(v.tabs.Keys);
      var id := seq(longest + 1, i => 'a');
      var next := Track(v, id, id, 0);
      TrackAddsOne(v, id);
      LastEnters(v, k, id, max, policy);
      var rest;
      rest, w := AllEnter(next, k - 1, n, max, policy);
      Before(s, Enter(k - 1, id, 0), rest, State(w, map[], 0, 0), max, policy, n);
      steps := [Enter(k - 1, id, 0)] + rest;
    }
  }

  // The calls in flight make all the difference they may: from one tab below the limit, n calls that check
  // before any of them enters take the tabs n further.
  lemma CallsInFlightReachTheBound(v: Tabs, n: nat, max: int, policy: Policy) returns (steps: seq<Step>, end: State)
    requires |v.tabs| == max - 1
    ensures Reaches(State(v, map[], 0, 0), steps, end, max, policy, n)
    ensures end.calls == map[] && end.shared == 0 && end.unlimited == 0 && |end.v.tabs| == max - 1 + n
  {
    var checks := AllAreAdmitted(v, 0, n, max, policy);
    var enters, w := AllEnter(v, n, n, max, policy);
    assert AdmittedBelow(0) == map[];
    end := State(w, map[], 0, 0);
    Join(State(v, map[], 0, 0), checks, State(v, AdmittedBelow(n), 0, 0), enters, end, max, policy, n);
    steps := checks + enters;
  }

  lemma {:induction false} LongerThanAll(ids: set<string>) returns (n: nat)
    ensures forall id :: id in ids ==> |id| < n
    decreases ids
  {
    if ids == {} {
      n := 0;
    } else {
      var id :| id in ids;
      n := LongerThanAll(ids - {id});
      n := if |id| < n then n else |id| + 1;
    }
  }

  lemma {:induction false} SomeoneIsFirst(tabs: map<string, int>) returns (id: string)
    requires tabs != map[]
    ensures id in tabs && forall x :: x in tabs ==> tabs[id] <= tabs[x]
    decreases |tabs|
  {
    id :| id in tabs;
    var rest := tabs - {id};
    if rest != map[] {
      assert tabs.Keys == rest.Keys + {id};
      var first := SomeoneIsFirst(rest);
      if tabs[first] < tabs[id] {
        id := first;
      }
    }
  }

  lemma SomeoneIsEvictable(v: Tabs, policy: Policy) returns (id: string)
    requires v.tabs != map[] && policy != Reject
    ensures Evictable(v, policy, id)
  {
    var one :| one in v.tabs;
    if policy == CloseOldest {
      var created := map x | x in v.tabs :: v.tabs[x].createdAt;
      assert one in created;
      id := SomeoneIsFirst(created);
      assert forall x :: x in v.tabs ==> x in created && created[x] == v.tabs[x].createdAt;
    } else {
      var used := map x | x in v.tabs :: UseTime(v.tabs[x]);
      assert one in used;
      id := SomeoneIsFirst(used);
      assert forall x :: x in v.tabs ==> x in used && used[x] == UseTime(v.tabs[x]);
    }
  }

  // Two calls find the table full and choose the same tab.
  function BothChoose(x: string): seq<Step> {
    [Check(0)] + ([Check(1)] + ([Choose(0, x)] + ([Choose(1, x)] + [])))
  }

  // Both look it up, then both close it.
  function BothClose(): seq<Step> {
    ([LookUp(0)] + ([LookUp(1)] + [])) + ([Purge(0, true, "")] + ([Purge(1, true, "")] + []))
  }

  // Both enter a tab.
  function BothEnter(id: string, id': string): seq<Step> {
    [Enter(0, id, 0)] + ([Enter(1, id', 0)] + [])
  }

  function Two(v: Tabs, p: Phase, q: Phase, shared: nat): State {
    State(v, map[0 := p, 1 := q], shared, 0)
  }

  lemma BothMayChoose(v: Tabs, shared: nat, max: int, policy: Policy, x: string)
    requires 0 < max <= |v.tabs| && policy != Reject && Evictable(v, policy, x)
    ensures Reaches(State(v, map[], shared, 0), BothChoose(x), Two(v, Chosen(x), Chosen(x), shared + 1), max, policy, 2)
  {
    var s0, s1 := State(v, map[], shared, 0), State(v, map[0 := Full], shared, 0);
    var s2, s3, s4 := Two(v, Full, Full, shared), Two(v, Chosen(x), Full, shared), Two(v, Chosen(x), Chosen(x), shared + 1);
    assert Reaches(s4, [], s4, max, policy, 2);
    assert x in Victims(s3) by {
      assert 0 in Waiting(s3) && s3.calls[0].victim == x;
    }
    assert x !in Victims(s2);
    assert s0.calls[0 := Full] == s1.calls && s1.calls[1 := Full] == s2.calls;
    assert s2.calls[0 := Chosen(x)] == s3.calls && s3.calls[1 := Chosen(x)] == s4.calls;
    hide Evictable, Victims, Reaches;
    assert Take(s3, Choose(1, x), max, policy) == s4;
    assert Take(s2, Choose(0, x), max, policy) == s3;
    Before(s3, Choose(1, x), [], s4, max, policy, 2);
    Before(s2, Choose(0, x), [Choose(1, x)] + [], s4, max, policy, 2);
    Before(s1, Check(1), [Choose(0, x)] + ([Choose(1, x)] + []), s4, max, policy, 2);
    Before(s0, Check(0), [Check(1)] + ([Choose(0, x)] + ([Choose(1, x)] + [])), s4, max, policy, 2);
  }

  lemma LookUpFinds(s: State, c: nat, x: string, max: int, policy: Policy)
    requires c in s.calls && s.calls[c] == Chosen(x) && x in s.v.tabs
    ensures Possible(s, LookUp(c), policy)
    ensures Take(s, LookUp(c), max, policy) == s.(calls := s.calls[c := Closing(x, true)])
  {
  }

  lemma BothMayLookUp(v: Tabs, shared: nat, max: int, policy: Policy, x: string)
    requires x in v.tabs
    ensures Reaches(Two(v, Chosen(x), Chosen(x), shared), [LookUp(0)] + ([LookUp(1)] + []),
                    Two(v, Closing(x, true), Closing(x, true), shared), max, policy, 2)
  {
    var s0, s1 := Two(v, Chosen(x), Chosen(x), shared), Two(v, Closing(x, true), Chosen(x), shared);
    var s2 := Two(v, Closing(x, true), Closing(x, true), shared);
    assert Reaches(s2, [], s2, max, policy, 2);
    assert s0.calls[0 := Closing(x, true)] == s1.calls && s1.calls[1 := Closing(x, true)] == s2.calls;
    hide Reaches, Take, Possible;
    LookUpFinds(s0, 0, x, max, policy);
    LookUpFinds(s1, 1, x, max, policy);
    Before(s1, LookUp(1), [], s2, max, policy, 2);
    Before(s0, LookUp(0), [LookUp(1)] + [], s2, max, policy, 2);
  }

  lemma FirstPurgeDrops(v: Tabs, shared: nat, x: string, max: int, policy: Policy)
    requires x in v.tabs
    ensures var s := Two(v, Closing(x, true), Closing(x, true), shared);
            && Possible(s, Purge(0, true, ""), policy)
            && Take(s, Purge(0, true, ""), max, policy) == Two(Drop(v, x), Admitted, Closing(x, true), shared)
  {
    var s := Two(v, Closing(x, true), Closing(x, true), shared);
    assert s.calls[0 := Admitted] == map[0 := Admitted, 1 := Closing(x, true)];
  }

  lemma SecondPurgeFindsNothing(w: Tabs, shared: nat, x: string, max: int, policy: Policy)
    requires x !in w.tabs
    ensures var s := Two(w, Admitted, Closing(x, true), shared);
            && Possible(s, Purge(1, true, ""), policy)
            && Take(s, Purge(1, true, ""), max, policy) == Two(w, Admitted, Admitted, shared)
  {
    var s := Two(w, Admitted, Closing(x, true), shared);
    assert s.calls[1 := Admitted] == map[0 := Admitted, 1 := Admitted];
  }

  lemma BothMayPurge(v: Tabs, shared: nat, max: int, policy: Policy, x: string)
    requires x in v.tabs
    ensures Reaches(Two(v, Closing(x, true), Closing(x, true), shared), [Purge(0, true, "")] + ([Purge(1, true, "")] + []),
                    Two(Drop(v, x), Admitted, Admitted, shared), max, policy, 2)
  {
    assert x !in Drop(v, x).tabs;
    assert Reaches(Two(Drop(v, x), Admitted, Admitted, shared), [], Two(Drop(v, x), Admitted, Admitted, shared), max, policy, 2);
    hide Reaches, Drop, Take, Possible;
    var w := Drop(v, x);
    var s0, s1 := Two(v, Closing(x, true), Closing(x, true), shared), Two(w, Admitted, Closing(x, true), shared);
    var s2 := Two(w, Admitted, Admitted, shared);
    FirstPurgeDrops(v, shared, x, max, policy);
    SecondPurgeFindsNothing(w, shared, x, max, policy);
    Before(s1, Purge(1, true, ""), [], s2, max, policy, 2);
    Before(s0, Purge(0, true, ""), [Purge(1, true, "")] + [], s2, max, policy, 2);
  }

  lemma BothMayClose(v: Tabs, shared: nat, max: int, policy: Policy, x: string)
    requires x in v.tabs
    ensures Reaches(Two(v, Chosen(x), Chosen(x), shared), BothClose(), Two(Drop(v, x), Admitted, Admitted, shared), max, policy, 2)
  {
    hide Reaches, Drop;
    BothMayLookUp(v, shared, max, policy, x);
    BothMayPurge(v, shared, max, policy, x);
    Join(Two(v, Chosen(x), Chosen(x), shared), [LookUp(0)] + ([LookUp(1)] + []), Two(v, Closing(x, true), Closing(x, true), shared),
         [Purge(0, true, "")] + ([Purge(1, true, "")] + []), Two(Drop(v, x), Admitted, Admitted, shared), max, policy, 2);
  }

  lemma NoStep(s: State, max: int, policy: Policy, most: nat)
    requires |s.calls| <= most
    ensures Reaches(s, [], s, max, policy, most)
  {
  }

  lemma EnterTracks(s: State, c: nat, id: string, max: int, policy: Policy)
    requires c in s.calls && s.calls[c].Admitted? && id != ""
    ensures Possible(s, Enter(c, id, 0), policy)
    ensures Take(s, Enter(c, id, 0), max, policy) == s.(v := Track(s.v, id, id, 0), calls := s.calls - {c})
  {
  }

  lemma BothMayEnter(w: Tabs, shared: nat, max: int, policy: Policy, id: string, id': string)
    requires id != "" && id' != ""
    ensures Reaches(Two(w, Admitted, Admitted, shared), BothEnter(id, id'),
                    State(Track(Track(w, id, id, 0), id', id', 0), map[], shared, 0), max, policy, 2)
  {
    hide Reaches, Track, Take, Possible;
    var w1 := Track(w, id, id, 0);
    var s0, s1 := Two(w, Admitted, Admitted, shared), State(w1, map[1 := Admitted], shared, 0);
    var s2 := State(Track(w1, id', id', 0), map[], shared, 0);
    NoStep(s2, max, policy, 2);
    assert s0.calls - {0} == s1.calls && s1.calls - {1} == s2.calls;
    EnterTracks(s0, 0, id, max, policy);
    EnterTracks(s1, 1, id', max, policy);
    Before(s1, Enter(1, id', 0), [], s2, max, policy, 2);
    Before(s0, Enter(0, id, 0), [Enter(1, id', 0)] + [], s2, max, policy, 2);
  }

  // So one round takes the tabs one further.
  lemma RoundAddsOne(v: Tabs, shared: nat, max: int, policy: Policy) returns (round: seq<Step>, w: Tabs)
    requires 0 < max <= |v.tabs| && policy != Reject
    ensures Reaches(State(v, map[], shared, 0), round, State(w, map[], shared + 1, 0), max, policy, 2)
    ensures |w.tabs| == |v.tabs| + 1
  {
    var x := SomeoneIsEvictable(v, policy);
    assert x in v.tabs;
    var longest := LongerThanAll(v.tabs.Keys);
    var id, id' := seq(longest + 1, i => 'a'), seq(longest + 2, i => 'a');
    assert |id| != |id'|;
    w := Track(Track(Drop(v, x), id, id, 0), id', id', 0);
    assert w.tabs.Keys == v.tabs.Keys - {x} + {id} + {id'};
    BothMayChoose(v, shared, max, policy, x);
    BothMayClose(v, shared + 1, max, policy, x);
    BothMayEnter(Drop(v, x), shared + 1, max, policy, id, id');
    hide Reaches, Evictable, Drop, Track;
    var chosen, closed := Two(v, Chosen(x), Chosen(x), shared + 1), Two(Drop(v, x), Admitted, Admitted, shared + 1);
    var after := State(w, map[], shared + 1, 0);
    Join(chosen, BothClose(), closed, BothEnter(id, id'), after, max, policy, 2);
    Join(State(v, map[], shared, 0), BothChoose(x), chosen, BothClose() + BothEnter(id, id'), after, max, policy, 2);
    round := BothChoose(x) + (BothClose() + BothEnter(id, id'));
  }

  // With two calls in flight and no more, the tabs can grow past every number: from any full table, for
  // every n, a run of n rounds with as many shared victims takes it n tabs further.
  lemma {:induction false} SharedVictimsAddUp(v: Tabs, shared: nat, max: int, policy: Policy, n: nat)
      returns (steps: seq<Step>, end: State)
    requires 0 < max <= |v.tabs| && policy != Reject
    ensures Reaches(State(v, map[], shared, 0), steps, end, max, policy, 2)
    ensures end.calls == map[] && |end.v.tabs| == |v.tabs| + n && end.shared == shared + n && end.unlimited == 0
    decreases n
  {
    if n == 0 {
      steps, end := [], State(v, map[], shared, 0);
    } else {
      var round, w := RoundAddsOne(v, shared, max, policy);
      steps, end := SharedVictimsAddUp(w, shared + 1, max, policy, n - 1);
      Join(State(v, map[], shared, 0), round, State(w, map[], shared + 1, 0), steps, end, max, policy, 2);
      steps := round + steps;
    }
  }
}

// The idle-close timer of a tab, internal/bridge/tab_autoclose.go. A timer that is stopped too late
// still runs its callback, at any later time; generation counters are there to make it harmless.

module AutoClose {
  import opened GoText

  // autoCloseGen is a 64-bit counter.
  const WRAP := 0x1_0000_0000_0000_0000

  // autoCloseGen and autoCloseTimer of one TabEntry.
  datatype Entry = Entry(gen: nat, timer: Option<nat>)

  function Bump(gen: nat): nat {
    (gen + 1) % WRAP
  }

  function Scheduled(e: Entry, callback: nat): Entry {
    Entry(Bump(e.gen), Some(callback))
  }

  function Cancelled(e: Entry): Entry {
    Entry(Bump(e.gen), None)
  }

  class Timers {
    var tabs: map<string, Entry>
    var nextCallback: nat

    constructor ()
      ensures tabs == map[] && nextCallback == 0
    {
      tabs, nextCallback := map[], 0;
    }

    // The armed callback, with the generation it will present, if a timer was armed.
    method ScheduleAutoClose(tabID: string, closeIdle: bool, delay: int) returns (armed: Option<(nat, nat)>)
      modifies this
      ensures if closeIdle && delay > 0 && tabID in old(tabs) then
                var e := Scheduled(old(tabs)[tabID], old(nextCallback));
                && tabs == old(tabs)[tabID := e] && nextCallback == old(nextCallback) + 1
                && armed == Some((old(nextCallback), e.gen))
              else tabs == old(tabs) && nextCallback == old(nextCallback) && armed == None
    {
      if !closeIdle {
        return None;
      }
      if delay <= 0 {
        return None;
      }
      if tabID !in tabs {
        return None;
      }
      var e := tabs[tabID];
      e := e.(gen := (e.gen + 1) % WRAP);
      var gen := e.gen;
      e := e.(timer := Some(nextCallback));
      tabs := tabs[tabID := e];
      armed := Some((nextCallback, gen));
      nextCallback := nextCallback + 1;
    }

    method CancelAutoClose(tabID: string)
      modifies this
      ensures tabs == if tabID in old(tabs) then old(tabs)[tabID := Cancelled(old(tabs)[tabID])] else old(tabs)
      ensures nextCallback == old(nextCallback)
    {
      if tabID !in tabs {
        return;
      }
      var e := tabs[tabID];
      if e.timer.Some? {
        e := e.(timer := None);
      }
      e := e.(gen := (e.gen + 1) % WRAP);
      tabs := tabs[tabID := e];
    }

    // The locked part of autoCloseFire: whether it goes on to close the tab.
    method AutoCloseFire(tabID: string, gen: nat) returns (commits: bool)
      modifies this
      ensures commits <==> tabID in old(tabs) && old(tabs)[tabID].gen == gen
      ensures tabs == if commits then old(tabs)[tabID := old(tabs)[tabID].(timer := None)] else old(tabs)
      ensures nextCallback == old(nextCallback)
    {
      if tabID !in tabs || tabs[tabID].gen != gen {
        return false;
      }
      tabs := tabs[tabID := tabs[tabID].(timer := None)];
      return true;
    }
  }

  // ---------------------------------------------------------------- one tab ID, with late callbacks

  // The tab's entry, if it is tracked, the callbacks that may still run, with their generation, and those
  // that have committed and are about to close the tab.
  datatype State = State(entry: Option<Entry>, outstanding: map<nat, nat>, closing: set<nat>, next: nat)

  // `late`: stopping the previous timer came too late, so its callback can still run. Closing is a step of
  // its own, after the lock of the committing one was released; it fails if it would close the last page.
  datatype Action =
    | Register
    | Purge(late: bool)
    | Schedule(late: bool)
    | Cancel(late: bool)
    | Fire(callback: nat)
    | Close(callback: nat, succeeds: bool, late: bool)

  const INITIAL := State(None, map[], {}, 0)

  predicate Enabled(s: State, a: Action) {
    match a
    case Fire(callback) => callback in s.outstanding
    case Close(callback, _, _) => callback in s.closing
    case _ => true
  }

  function Stopped(s: State, late: bool): map<nat, nat> {
    if s.entry.Some? && s.entry.value.timer.Some? && !late then s.outstanding - {s.entry.value.timer.value} else s.outstanding
  }

  predicate Commits(s: State, a: Action) {
    a.Fire? && a.callback in s.outstanding && s.entry.Some? && s.entry.value.gen == s.outstanding[a.callback]
  }

  function Step(s: State, a: Action): State {
    match a
    case Register => s.(entry := Some(Entry(0, None)))
    case Purge(late) => s.(entry := None, outstanding := Stopped(s, late))
    case Schedule(late) =>
      if s.entry.None? then s
      else
        var e := Scheduled(s.entry.value, s.next);
        s.(entry := Some(e), outstanding := Stopped(s, late)[s.next := e.gen], next := s.next + 1)
    case Cancel(late) =>
      if s.entry.None? then s else s.(entry := Some(Cancelled(s.entry.value)), outstanding := Stopped(s, late))
    case Fire(callback) =>
      s.(entry := if Commits(s, a) then Some(s.entry.value.(timer := None)) else s.entry,
         outstanding := s.outstanding - {callback},
         closing := if Commits(s, a) then s.closing + {callback} else s.closing)
    case Close(callback, succeeds, late) =>
      if succeeds then s.(entry := None, outstanding := Stopped(s, late), closing := s.closing - {callback})
      else s.(closing := s.closing - {callback})
  }

  function After(run: seq<Action>): State
    decreases |run|
  {
    if run == [] then INITIAL else Step(After(run[..|run| - 1]), run[|run| - 1])
  }

  // Each callback that runs is outstanding when it does, and each that closes has committed.
  ghost predicate Possible(run: seq<Action>) {
    forall k :: 0 <= k < |run| ==> Enabled(After(run[..k]), run[k])
  }

  lemma AfterOneMore(run: seq<Action>, k: nat)
    requires k < |run|
    ensures After(run[..k + 1]) == Step(After(run[..k]), run[k])
  {
    assert run[..k + 1][..k] == run[..k];
  }

  // Callbacks are numbered in the order they are armed.
  lemma {:induction false} OutstandingAreOld(run: seq<Action>)
    ensures forall c :: c in After(run).outstanding ==> c < After(run).next
    ensures After(run).entry.Some? && After(run).entry.value.timer.Some? ==> After(run).entry.value.timer.value < After(run).next
    decreases |run|
  {
    if run != [] {
      OutstandingAreOld(run[..|run| - 1]);
    }
  }

  // The number of schedules and cancels among the actions i .. j-1.
  function Bumps(run: seq<Action>, i: nat, j: nat): nat
    requires i <= j <= |run|
    decreases j
  {
    if i == j then 0 else Bumps(run, i, j - 1) + if run[j - 1].Schedule? || run[j - 1].Cancel? then 1 else 0
  }

  // The tab stays the same tab: it is neither forgotten nor registered anew.
  predicate OneLifetime(run: seq<Action>, i: nat, j: nat)
    requires i <= j <= |run|
  {
    forall k :: i <= k < j ==> !run[k].Register? && !run[k].Purge? && !(run[k].Close? && run[k].succeeds)
  }

  lemma BumpOrNot(s: State, a: Action)
    requires s.entry.Some? && !a.Register? && !a.Purge? && !(a.Close? && a.succeeds)
    ensures Step(s, a).entry.Some?
    ensures Step(s, a).entry.value.gen == if a.Schedule? || a.Cancel? then (s.entry.value.gen + 1) % WRAP else s.entry.value.gen
  {
  }

  lemma {:induction false} GenerationCountsBumps(run: seq<Action>, i: nat, j: nat)
    requires i <= j <= |run| && OneLifetime(run, i, j)
    requires After(run[..i]).entry.Some? && After(run[..i]).entry.value.gen < WRAP
    ensures After(run[..j]).entry.Some?
    ensures After(run[..j]).entry.value.gen == (After(run[..i]).entry.value.gen + Bumps(run, i, j)) % WRAP
    decreases j
  {
    hide Step, After;
    if i < j {
      GenerationCountsBumps(run, i, j - 1);
      AfterOneMore(run, j - 1);
      BumpOrNot(After(run[..j - 1]), run[j - 1]);
      ModSucc(After(run[..i]).entry.value.gen + Bumps(run, i, j - 1));
    }
  }

  lemma ModSucc(n: nat)
    ensures (n % WRAP + 1) % WRAP == (n + 1) % WRAP
  {
  }

  lemma StepKeepsGeneration(s: State, a: Action, c: nat)
    requires c < s.next && c in Step(s, a).outstanding
    ensures c in s.outstanding && Step(s, a).outstanding[c] == s.outstanding[c]
    ensures s.next <= Step(s, a).next
  {
  }

  lemma {:induction false} CallbackKeepsGeneration(run: seq<Action>, i: nat, j: nat, c: nat)
    requires i <= j <= |run|
    requires c < After(run[..i]).next
    requires c in After(run[..j]).outstanding
    ensures c in After(run[..i]).outstanding && After(run[..j]).outstanding[c] == After(run[..i]).outstanding[c]
    ensures After(run[..i]).next <= After(run[..j]).next
    decreases j
  {
    hide After, Step;
    if i < j {
      AfterOneMore(run, j - 1);
      NumbersGrow(run, i, j - 1);
      StepKeepsGeneration(After(run[..j - 1]), run[j - 1], c);
      CallbackKeepsGeneration(run, i, j - 1, c);
    }
  }

  lemma {:induction false} NumbersGrow(run: seq<Action>, i: nat, j: nat)
    requires i <= j <= |run|
    ensures After(run[..i]).next <= After(run[..j]).next
    decreases j
  {
    if i < j {
      NumbersGrow(run, i, j - 1);
      AfterOneMore(run, j - 1);
    }
  }

  // The callback armed by the i-th action.
  predicate Arms(run: seq<Action>, i: nat, c: nat)
    requires i < |run|
  {
    run[i].Schedule? && After(run[..i]).entry.Some? && After(run[..i]).next == c
  }

  lemma ArmedGeneration(run: seq<Action>, i: nat, c: nat)
    requires i < |run| && Arms(run, i, c)
    ensures var s := After(run[..i + 1]);
            s.entry.Some? && c in s.outstanding && s.outstanding[c] == s.entry.value.gen < WRAP && c < s.next
  {
    AfterOneMore(run, i);
  }

  // Within one lifetime of the tab, a callback that runs goes on to close the tab exactly when the
  // number of schedules and cancels since it was armed is a multiple of 2^64.
  lemma CommitsExactlyWhen(run: seq<Action>, i: nat, j: nat, c: nat)
    requires i < j < |run| && Arms(run, i, c)
    requires run[j] == Fire(c) && Enabled(After(run[..j]), run[j])
    requires OneLifetime(run, i, j)
    ensures Commits(After(run[..j]), run[j]) <==> Bumps(run, i + 1, j) % WRAP == 0
  {
    hide Step, After, Bumps;
    ArmedGeneration(run, i, c);
    var gen := After(run[..i + 1]).entry.value.gen;
    GenerationCountsBumps(run, i + 1, j);
    CallbackKeepsGeneration(run, i + 1, j, c);
    SameResidue(gen, Bumps(run, i + 1, j));
  }

  lemma SameResidue(gen: nat, n: nat)
    requires gen < WRAP
    ensures (gen + n) % WRAP == gen <==> n % WRAP == 0
  {
  }

  lemma {:induction false} BumpsAtMost(run: seq<Action>, i: nat, k: nat, j: nat)
    requires i <= k < j <= |run|
    ensures Bumps(run, i, j) <= j - i
    ensures run[k].Schedule? || run[k].Cancel? ==> Bumps(run, i, j) > 0
    decreases j
  {
    if k < j - 1 {
      BumpsAtMost(run, i, k, j - 1);
    } else if i < k {
      BumpsAtMost(run, i, i, j - 1);
    }
  }

  // So, short of 2^64 actions, a callback that commits was armed by the last schedule, with no cancel
  // since: a schedule or cancel stops every callback armed before it.
  lemma CommitMeansUndisturbed(run: seq<Action>, i: nat, k: nat, j: nat, c: nat)
    requires i < k < j < |run| && Arms(run, i, c) && j - i < WRAP
    requires run[j] == Fire(c) && Enabled(After(run[..j]), run[j]) && OneLifetime(run, i, j)
    requires run[k].Schedule? || run[k].Cancel?
    ensures !Commits(After(run[..j]), run[j])
  {
    CommitsExactlyWhen(run, i, j, c);
    BumpsAtMost(run, i + 1, k, j);
  }

  // No callback runs, let alone commits, twice: Go runs an armed function once.
  lemma CommitsAtMostOnce(run: seq<Action>, i: nat, j: nat, c: nat)
    requires Possible(run) && i < j < |run|
    requires run[i] == Fire(c)
    ensures run[j] != Fire(c)
  {
    OutstandingAreOld(run[..i]);
    AfterOneMore(run, i);
    assert Enabled(After(run[..i]), run[i]) && Enabled(After(run[..j]), run[j]);
    if c in After(run[..j]).outstanding {
      CallbackKeepsGeneration(run, i + 1, j, c);
    }
  }

  // Of two callbacks armed in one lifetime that both commit, the earlier one does so before the later one
  // is armed: there is no moment at which both could still close the tab.
  lemma CommitsAreSeparated(run: seq<Action>, i: nat, k: nat, j: nat, c: nat)
    requires i < k < |run| && i < j < |run| && j - i < WRAP && Arms(run, i, c) && run[k].Schedule?
    requires run[j] == Fire(c) && Enabled(After(run[..j]), run[j]) && OneLifetime(run, i, j)
    requires Commits(After(run[..j]), run[j])
    ensures j < k
  {
    if k < j {
      CommitMeansUndisturbed(run, i, k, j, c);
    }
  }

  // ---------------------------------------------------------------- between the commit and the close

  lemma {:induction false} ClosingHasCommitted(run: seq<Action>, k: nat, j: nat, c: nat) returns (f: nat)
    requires k <= j <= |run| && c in After(run[..j]).closing && c !in After(run[..k]).closing
    ensures k <= f < j && run[f] == Fire(c) && Commits(After(run[..f]), run[f])
    decreases j
  {
    AfterOneMore(run, j - 1);
    if c in After(run[..j - 1]).closing {
      f := ClosingHasCommitted(run, k, j - 1, c);
    } else {
      f := j - 1;
    }
  }

  // A schedule or cancel protects the tab from the callbacks armed before it, except exactly from those
  // that had committed already: of a tab cancelled at k, one armed before can still close only if it was
  // closing then, and if it was, nothing the cancel does prevents it.
  lemma CancelComesTooLateExactly(run: seq<Action>, i: nat, k: nat, c: nat)
    requires i < k < |run| && Arms(run, i, c) && (run[k].Schedule? || run[k].Cancel?)
    ensures forall j :: k < j <= |run| && OneLifetime(run, i, j) && j - i < WRAP && c in After(run[..j]).closing
              ==> c in After(run[..k]).closing
    ensures c in After(run[..k]).closing ==>
              var s := After(run[..k + 1]);
              Enabled(s, Close(c, true, false)) && Step(s, Close(c, true, false)).entry == None
  {
    AfterOneMore(run, k);
    forall j | k < j <= |run| && OneLifetime(run, i, j) && j - i < WRAP && c in After(run[..j]).closing
      ensures c in After(run[..k]).closing
    {
      if c !in After(run[..k]).closing {
        var f := ClosingHasCommitted(run, k, j, c);
        CommitMeansUndisturbed(run, i, k, f, c);
      }
    }
  }

  // ---------------------------------------------------------------- several lifetimes of one tab ID

  // Generations start again at zero when the ID is registered again. Whatever happened in between, a
  // callback armed in the lifetime begun at r commits in the lifetime begun at r' exactly when as many
  // schedules and cancels lie between r' and its run as between r and its arming, modulo 2^64.
  lemma CommitsAcrossLifetimes(run: seq<Action>, r: nat, i: nat, r': nat, j: nat, c: nat)
    requires r < i < j < |run| && r' < j && run[r] == Register && run[r'] == Register
    requires Arms(run, i, c) && OneLifetime(run, r + 1, i + 1) && OneLifetime(run, r' + 1, j)
    requires run[j] == Fire(c) && Enabled(After(run[..j]), run[j])
    ensures Commits(After(run[..j]), run[j]) <==> Bumps(run, r' + 1, j) % WRAP == Bumps(run, r + 1, i + 1) % WRAP
  {
    hide Step, After, Bumps, OneLifetime, Arms;
    ArmedGeneration(run, i, c);
    GenerationOfLifetime(run, r, i + 1);
    GenerationOfLifetime(run, r', j);
    CallbackKeepsGeneration(run, i + 1, j, c);
  }

  lemma GenerationOfLifetime(run: seq<Action>, r: nat, j: nat)
    requires r < j <= |run| && run[r] == Register && OneLifetime(run, r + 1, j)
    ensures After(run[..j]).entry.Some? && After(run[..j]).entry.value.gen == Bumps(run, r + 1, j) % WRAP
  {
    AfterOneMore(run, r);
    GenerationCountsBumps(run, r + 1, j);
  }

  // Of a tab that was forgotten and not registered again no callback commits.
  lemma {:induction false} NeverCommitsUntracked(run: seq<Action>, p: nat, j: nat)
    requires p < j < |run| && run[p].Purge? && forall k :: p < k < j ==> run[k] != Register
    ensures After(run[..j]).entry.None? && !Commits(After(run[..j]), run[j])
    decreases j
  {
    AfterOneMore(run, j - 1);
    if p < j - 1 {
      NeverCommitsUntracked(run, p, j - 1);
    }
  }

  lemma {:induction false} GenerationsAreBounded(run: seq<Action>)
    ensures forall c :: c in After(run).outstanding ==> After(run).outstanding[c] < WRAP
    decreases |run|
  {
    if run != [] {
      GenerationsAreBounded(run[..|run| - 1]);
    }
  }

  // The run goes on with registering the ID and n schedules, each stopping the timer before it in time.
  function NewLifetime(run: seq<Action>, n: nat): (longer: seq<Action>)
    ensures |longer| == |run| + n + 1
  {
    if n == 0 then run + [Register] else NewLifetime(run, n - 1) + [Schedule(false)]
  }

  lemma AfterAppend(run: seq<Action>, a: Action)
    ensures After(run + [a]) == Step(After(run), a)
  {
    assert (run + [a])[..|run|] == run;
  }

  // The tab is in its n-th generation with all its own callbacks numbered from `first` on, and the older
  // callback c of generation g is still outstanding.
  predicate CarriesOver(s: State, c: nat, g: nat, first: nat, n: nat) {
    && s.entry.Some? && s.entry.value.gen == n
    && (s.entry.value.timer.Some? ==> s.entry.value.timer.value >= first)
    && c < first <= s.next
    && c in s.outstanding && s.outstanding[c] == g
  }

  lemma ScheduleCarriesOver(s: State, c: nat, g: nat, first: nat, n: nat)
    requires CarriesOver(s, c, g, first, n) && n + 1 < WRAP
    ensures CarriesOver(Step(s, Schedule(false)), c, g, first, n + 1)
  {
  }

  lemma {:induction false} NewLifetimeCarriesOver(run: seq<Action>, c: nat, n: nat)
    requires c in After(run).outstanding && n < WRAP
    ensures CarriesOver(After(NewLifetime(run, n)), c, After(run).outstanding[c], After(run).next, n)
    decreases n
  {
    if n == 0 {
      OutstandingAreOld(run);
      AfterAppend(run, Register);
    } else {
      NewLifetimeCarriesOver(run, c, n - 1);
      AfterAppend(NewLifetime(run, n - 1), Schedule(false));
      ScheduleCarriesOver(After(NewLifetime(run, n - 1)), c, After(run).outstanding[c], After(run).next, n - 1);
    }
  }

  // So every callback still outstanding when its tab is gone can close the tab that next gets the ID: it
  // commits after as many schedules there as its own generation counts, although each of them armed a
  // newer timer. A timer stopped too late when its tab goes is such a callback.
  lemma LateCallbackOutlivesItsTab(run: seq<Action>, c: nat)
    requires After(run).entry.None? && c in After(run).outstanding
    ensures var later := NewLifetime(run, After(run).outstanding[c]);
            Enabled(After(later), Fire(c)) && Commits(After(later), Fire(c))
    ensures var left := After([Register, Schedule(false), Purge(true)]);
            left.entry.None? && left.outstanding == map[0 := 1]
  {
    GenerationsAreBounded(run);
    NewLifetimeCarriesOver(run, c, After(run).outstanding[c]);
    AfterAppend([], Register);
    AfterAppend([Register], Schedule(false));
    AfterAppend([Register, Schedule(false)], Purge(true));
    assert [] + [Register] == [Register] && [Register] + [Schedule(false)] == [Register, Schedule(false)];
    assert [Register, Schedule(false)] + [Purge(true)] == [Register, Schedule(false), Purge(true)];
  }
}
